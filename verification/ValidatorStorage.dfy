/** Validators grouped by deadline slot: the stored values, their cleanup, and what stays true of them. */
module ValidatorStorage {
  import opened Arithmetic
  import opened Bytes
  import opened ExitData

  datatype ExitRequest = ExitRequest(hash: string, data: seq<Byte>)

  datatype Tracked = Tracked(validator: Entry, activationEpoch: nat, exitDeadlineEpoch: int)

  datatype Group = Group(exitRequest: ExitRequest, validators: seq<Tracked>)

  type Storage = map<int, seq<Group>>

  /** All validators of a slot, group after group. */
  function Flatten(gs: seq<Group>): seq<Tracked> {
    if gs == [] then [] else gs[0].validators + Flatten(gs[1..])
  }

  /** The validators that are still in the reported set, in order. */
  function Keep(vs: seq<Tracked>, reported: set<string>): seq<Tracked> {
    if vs == [] then []
    else (if vs[0].validator.pubkey in reported then [vs[0]] else []) + Keep(vs[1..], reported)
  }

  predicate HasIndex(vs: seq<Tracked>, x: nat) {
    exists k :: 0 <= k < |vs| && vs[k].validator.validatorIndex == x
  }

  /** The validators whose index occurs among own, in order. */
  function Share(vs: seq<Tracked>, own: seq<Tracked>): seq<Tracked> {
    if vs == [] then []
    else (if HasIndex(own, vs[0].validator.validatorIndex) then [vs[0]] else []) + Share(vs[1..], own)
  }

  /** Each group gets every remaining validator whose index it held; empty groups are dropped. */
  function Redistribute(gs: seq<Group>, remaining: seq<Tracked>): seq<Group> {
    if gs == [] then []
    else
      var share := Share(remaining, gs[0].validators);
      (if share == [] then [] else [Group(gs[0].exitRequest, share)]) + Redistribute(gs[1..], remaining)
  }

  /** What cleanup leaves of one slot; no groups means that the slot is removed. */
  function CleanSlot(gs: seq<Group>, reported: set<string>): seq<Group> {
    Redistribute(gs, Keep(Flatten(gs), reported))
  }

  // ---------- membership ----------

  lemma {:induction false} FlattenAppend(a: seq<Group>, b: seq<Group>)
    ensures Flatten(a + b) == Flatten(a) + Flatten(b)
  {
    if a == [] {
      assert a + b == b;
    } else {
      assert (a + b)[1..] == a[1..] + b;
      FlattenAppend(a[1..], b);
    }
  }

  lemma {:induction false} FlattenMember(gs: seq<Group>, e: Tracked)
    ensures e in Flatten(gs) <==> exists k :: 0 <= k < |gs| && e in gs[k].validators
  {
    if gs != [] {
      FlattenMember(gs[1..], e);
      if k :| 0 <= k < |gs[1..]| && e in gs[1..][k].validators {
        assert e in gs[k + 1].validators;
      }
      if k :| 0 <= k < |gs| && e in gs[k].validators {
        assert k > 0 ==> e in gs[1..][k - 1].validators;
      }
    }
  }

  lemma {:induction false} KeepMember(vs: seq<Tracked>, reported: set<string>, e: Tracked)
    ensures e in Keep(vs, reported) <==> e in vs && e.validator.pubkey in reported
  {
    if vs != [] {
      KeepMember(vs[1..], reported, e);
    }
  }

  lemma {:induction false} ShareMember(vs: seq<Tracked>, own: seq<Tracked>, e: Tracked)
    ensures e in Share(vs, own) <==> e in vs && HasIndex(own, e.validator.validatorIndex)
  {
    if vs != [] {
      ShareMember(vs[1..], own, e);
    }
  }

  /** Every group after cleanup is a former group with its share of the remaining validators. */
  lemma {:induction false} RedistributeMember(gs: seq<Group>, remaining: seq<Tracked>, g: Group)
    ensures g in Redistribute(gs, remaining) <==>
            g.validators != []
            && exists k :: 0 <= k < |gs| && g == Group(gs[k].exitRequest, Share(remaining, gs[k].validators))
  {
    if gs != [] {
      RedistributeMember(gs[1..], remaining, g);
      if k :| 0 <= k < |gs[1..]| && g == Group(gs[1..][k].exitRequest, Share(remaining, gs[1..][k].validators)) {
        assert g == Group(gs[k + 1].exitRequest, Share(remaining, gs[k + 1].validators));
      }
      if k :| 0 <= k < |gs| && g == Group(gs[k].exitRequest, Share(remaining, gs[k].validators)) {
        if k > 0 {
          assert gs[k] == gs[1..][k - 1];
        }
      }
    }
  }

  /** What a group of the slot holds of the tracked validators it still holds after cleanup. */
  lemma {:induction false} OwnStays(gs: seq<Group>, reported: set<string>, k: nat, e: Tracked)
    requires k < |gs| && e in gs[k].validators && e.validator.pubkey in reported
    ensures var share := Share(Keep(Flatten(gs), reported), gs[k].validators);
            e in share && Group(gs[k].exitRequest, share) in CleanSlot(gs, reported)
  {
    FlattenMember(gs, e);
    KeepMember(Flatten(gs), reported, e);
    var i :| 0 <= i < |gs[k].validators| && gs[k].validators[i] == e;
    ShareMember(Keep(Flatten(gs), reported), gs[k].validators, e);
    RedistributeMember(gs, Keep(Flatten(gs), reported),
                       Group(gs[k].exitRequest, Share(Keep(Flatten(gs), reported), gs[k].validators)));
  }

  /** Exactly the validators still reported survive the cleanup of their slot. */
  lemma {:induction false} CleanSlotMember(gs: seq<Group>, reported: set<string>, e: Tracked)
    ensures e in Flatten(CleanSlot(gs, reported)) <==> e in Flatten(gs) && e.validator.pubkey in reported
  {
    var after := CleanSlot(gs, reported);
    FlattenMember(gs, e);
    FlattenMember(after, e);
    if e in Flatten(gs) && e.validator.pubkey in reported {
      var k :| 0 <= k < |gs| && e in gs[k].validators;
      OwnStays(gs, reported, k, e);
      var g := Group(gs[k].exitRequest, Share(Keep(Flatten(gs), reported), gs[k].validators));
      var j :| 0 <= j < |after| && after[j] == g;
      assert e in after[j].validators;
    }
    if j :| 0 <= j < |after| && e in after[j].validators {
      RedistributeMember(gs, Keep(Flatten(gs), reported), after[j]);
      var k :| 0 <= k < |gs|
               && after[j] == Group(gs[k].exitRequest, Share(Keep(Flatten(gs), reported), gs[k].validators));
      ShareMember(Keep(Flatten(gs), reported), gs[k].validators, e);
      KeepMember(Flatten(gs), reported, e);
    }
  }

  /** When some validator remains, some group remains: the branch that removes the slot at the end is dead. */
  lemma {:induction false} RemainingMeansGroups(gs: seq<Group>, reported: set<string>)
    ensures CleanSlot(gs, reported) == [] <==> Keep(Flatten(gs), reported) == []
  {
    var remaining := Keep(Flatten(gs), reported);
    if remaining != [] {
      var e := remaining[0];
      KeepMember(Flatten(gs), reported, e);
      CleanSlotMember(gs, reported, e);
    } else if CleanSlot(gs, reported) != [] {
      var g := CleanSlot(gs, reported)[0];
      RedistributeMember(gs, remaining, g);
    }
  }

  // ---------- cleanup against the intended filter ----------

  /** What the program's comments intend: each group keeps its own validators that are still tracked. */
  function FilterGroups(gs: seq<Group>, reported: set<string>): seq<Group> {
    if gs == [] then []
    else
      var own := Keep(gs[0].validators, reported);
      (if own == [] then [] else [Group(gs[0].exitRequest, own)]) + FilterGroups(gs[1..], reported)
  }

  /** No tracked validator of one group has its index in another group. */
  ghost predicate NoneShared(gs: seq<Group>, reported: set<string>) {
    forall i, j, e | 0 <= i < |gs| && 0 <= j < |gs| && i != j && e in gs[i].validators
                     && e.validator.pubkey in reported ::
      !HasIndex(gs[j].validators, e.validator.validatorIndex)
  }

  lemma {:induction false} KeepAppend(a: seq<Tracked>, b: seq<Tracked>, reported: set<string>)
    ensures Keep(a + b, reported) == Keep(a, reported) + Keep(b, reported)
  {
    if a == [] {
      assert a + b == b;
    } else {
      assert (a + b)[0] == a[0] && (a + b)[1..] == a[1..] + b;
      KeepAppend(a[1..], b, reported);
      var head := if a[0].validator.pubkey in reported then [a[0]] else [];
      assert Keep(a, reported) == head + Keep(a[1..], reported);
      assert Keep(a + b, reported) == head + Keep(a[1..] + b, reported);
    }
  }

  lemma {:induction false} ShareAppend(a: seq<Tracked>, b: seq<Tracked>, own: seq<Tracked>)
    ensures Share(a + b, own) == Share(a, own) + Share(b, own)
  {
    if a == [] {
      assert a + b == b;
    } else {
      assert (a + b)[0] == a[0] && (a + b)[1..] == a[1..] + b;
      ShareAppend(a[1..], b, own);
      var head := if HasIndex(own, a[0].validator.validatorIndex) then [a[0]] else [];
      assert Share(a, own) == head + Share(a[1..], own);
      assert Share(a + b, own) == head + Share(a[1..] + b, own);
    }
  }

  lemma {:induction false} ShareAll(vs: seq<Tracked>, own: seq<Tracked>)
    requires forall e :: e in vs ==> HasIndex(own, e.validator.validatorIndex)
    ensures Share(vs, own) == vs
  {
    if vs != [] {
      ShareAll(vs[1..], own);
    }
  }

  /** The remaining validators, seen from group j: those before, its own, those after. */
  lemma {:induction false} FlattenSplit(gs: seq<Group>, j: nat)
    requires j < |gs|
    ensures Flatten(gs) == Flatten(gs[..j]) + (gs[j].validators + Flatten(gs[j + 1..]))
  {
    assert gs == gs[..j] + gs[j..] && gs[j..][1..] == gs[j + 1..];
    FlattenAppend(gs[..j], gs[j..]);
  }

  lemma {:induction false} ShareOfKept(own: seq<Tracked>, reported: set<string>)
    ensures Share(Keep(own, reported), own) == Keep(own, reported)
  {
    forall e | e in Keep(own, reported) ensures HasIndex(own, e.validator.validatorIndex) {
      KeepMember(own, reported, e);
      var i :| 0 <= i < |own| && own[i] == e;
    }
    ShareAll(Keep(own, reported), own);
  }

  lemma ShareSplit(gs: seq<Group>, reported: set<string>, j: nat)
    requires j < |gs|
    ensures var own := gs[j].validators;
            Share(Keep(Flatten(gs), reported), own) ==
            Share(Keep(Flatten(gs[..j]), reported), own) + Keep(own, reported)
              + Share(Keep(Flatten(gs[j + 1..]), reported), own)
  {
    var own, before, after := gs[j].validators, Flatten(gs[..j]), Flatten(gs[j + 1..]);
    FlattenSplit(gs, j);
    KeepAppend(before, own + after, reported);
    KeepAppend(own, after, reported);
    ShareAppend(Keep(before, reported), Keep(own, reported) + Keep(after, reported), own);
    ShareAppend(Keep(own, reported), Keep(after, reported), own);
    ShareOfKept(own, reported);
  }

  lemma {:induction false} ShareOfOthers(gs: seq<Group>, reported: set<string>, own: seq<Tracked>, e: Tracked)
    ensures e in Share(Keep(Flatten(gs), reported), own) <==>
            e.validator.pubkey in reported && HasIndex(own, e.validator.validatorIndex)
            && exists k :: 0 <= k < |gs| && e in gs[k].validators
  {
    ShareMember(Keep(Flatten(gs), reported), own, e);
    KeepMember(Flatten(gs), reported, e);
    FlattenMember(gs, e);
  }

  /** Without shared indices, the share of a group is its own tracked validators in their order. */
  lemma {:induction false} ShareIsOwn(gs: seq<Group>, reported: set<string>, j: nat)
    requires j < |gs| && NoneShared(gs, reported)
    ensures Share(Keep(Flatten(gs), reported), gs[j].validators) == Keep(gs[j].validators, reported)
  {
    var own := gs[j].validators;
    ShareSplit(gs, reported, j);
    forall k, e | 0 <= k < |gs[..j]| && e in gs[..j][k].validators && e.validator.pubkey in reported
      ensures !HasIndex(own, e.validator.validatorIndex)
    {
      assert gs[..j][k] == gs[k];
    }
    ShareNone(gs[..j], reported, own);
    var after := gs[j + 1..];
    forall k, e | 0 <= k < |after| && e in after[k].validators && e.validator.pubkey in reported
      ensures !HasIndex(own, e.validator.validatorIndex)
    {
      assert after[k] == gs[j + 1 + k];
    }
    ShareNone(after, reported, own);
  }

  lemma {:induction false} ShareNone(gs: seq<Group>, reported: set<string>, own: seq<Tracked>)
    requires forall k, e :: 0 <= k < |gs| && e in gs[k].validators && e.validator.pubkey in reported ==>
               !HasIndex(own, e.validator.validatorIndex)
    ensures Share(Keep(Flatten(gs), reported), own) == []
  {
    var share := Share(Keep(Flatten(gs), reported), own);
    if share != [] {
      ShareOfOthers(gs, reported, own, share[0]);
    }
  }

  /** A group gets at least its own tracked validators. */
  lemma {:induction false} ShareAtLeastOwn(gs: seq<Group>, reported: set<string>, j: nat)
    requires j < |gs|
    ensures |Share(Keep(Flatten(gs), reported), gs[j].validators)| >= |Keep(gs[j].validators, reported)|
  {
    ShareSplit(gs, reported, j);
  }

  /** A group gets more than its own when a tracked validator of another group has one of its indices. */
  lemma {:induction false} ShareMoreThanOwn(gs: seq<Group>, reported: set<string>, i: nat, j: nat, e: Tracked)
    requires i < |gs| && j < |gs| && i != j && e in gs[i].validators && e.validator.pubkey in reported
    requires HasIndex(gs[j].validators, e.validator.validatorIndex)
    ensures |Share(Keep(Flatten(gs), reported), gs[j].validators)| > |Keep(gs[j].validators, reported)|
  {
    ShareSplit(gs, reported, j);
    if i < j {
      assert gs[..j][i] == gs[i];
      ShareOfOthers(gs[..j], reported, gs[j].validators, e);
    } else {
      assert gs[j + 1..][i - j - 1] == gs[i];
      ShareOfOthers(gs[j + 1..], reported, gs[j].validators, e);
    }
  }

  lemma {:induction false} RedistributeIsFilter(gs: seq<Group>, reported: set<string>, m: nat)
    requires m <= |gs| && NoneShared(gs, reported)
    ensures Redistribute(gs[m..], Keep(Flatten(gs), reported)) == FilterGroups(gs[m..], reported)
    decreases |gs| - m
  {
    if m < |gs| {
      ShareIsOwn(gs, reported, m);
      RedistributeIsFilter(gs, reported, m + 1);
      assert gs[m..][1..] == gs[m + 1..];
    }
  }

  /** From group m on cleanup leaves at least as many validators as the filter, and more when group j is among them. */
  lemma {:induction false} RedistributeExceedsFilter(gs: seq<Group>, reported: set<string>, j: nat, m: nat)
    requires m <= |gs| && j < |gs|
    requires |Share(Keep(Flatten(gs), reported), gs[j].validators)| > |Keep(gs[j].validators, reported)|
    ensures |Flatten(Redistribute(gs[m..], Keep(Flatten(gs), reported)))|
            >= |Flatten(FilterGroups(gs[m..], reported))| + (if m <= j then 1 else 0)
    decreases |gs| - m
  {
    if m < |gs| {
      var remaining := Keep(Flatten(gs), reported);
      RedistributeExceedsFilter(gs, reported, j, m + 1);
      ShareAtLeastOwn(gs, reported, m);
      var share, own := Share(remaining, gs[m].validators), Keep(gs[m].validators, reported);
      assert gs[m..][1..] == gs[m + 1..] && gs[m..][0] == gs[m];
      FlattenStep(Group(gs[m].exitRequest, share), Redistribute(gs[m + 1..], remaining));
      FlattenStep(Group(gs[m].exitRequest, own), FilterGroups(gs[m + 1..], reported));
    }
  }

  lemma {:induction false} FlattenStep(g: Group, rest: seq<Group>)
    ensures Flatten((if g.validators == [] then [] else [g]) + rest) == g.validators + Flatten(rest)
  {
    FlattenAppend(if g.validators == [] then [] else [g], rest);
    assert [] + rest == rest;
  }

  /** Cleanup is the intended per-group filter exactly when no tracked index is shared between groups. */
  lemma {:induction false} CleanupExact(gs: seq<Group>, reported: set<string>)
    ensures CleanSlot(gs, reported) == FilterGroups(gs, reported) <==> NoneShared(gs, reported)
  {
    assert gs[0..] == gs;
    if NoneShared(gs, reported) {
      RedistributeIsFilter(gs, reported, 0);
    } else {
      var i, j, e :| 0 <= i < |gs| && 0 <= j < |gs| && i != j && e in gs[i].validators
                     && e.validator.pubkey in reported && HasIndex(gs[j].validators, e.validator.validatorIndex);
      ShareMoreThanOwn(gs, reported, i, j, e);
      RedistributeExceedsFilter(gs, reported, j, 0);
    }
  }

  // ---------- how often an index occurs ----------

  function Count(vs: seq<Tracked>, x: nat): nat {
    if vs == [] then 0 else (if vs[0].validator.validatorIndex == x then 1 else 0) + Count(vs[1..], x)
  }

  /** How many groups hold the index. */
  function Holders(gs: seq<Group>, x: nat): nat {
    if gs == [] then 0 else (if HasIndex(gs[0].validators, x) then 1 else 0) + Holders(gs[1..], x)
  }

  lemma {:induction false} CountAppend(a: seq<Tracked>, b: seq<Tracked>, x: nat)
    ensures Count(a + b, x) == Count(a, x) + Count(b, x)
  {
    if a == [] {
      assert a + b == b;
    } else {
      assert (a + b)[1..] == a[1..] + b;
      CountAppend(a[1..], b, x);
    }
  }

  lemma {:induction false} CountPositive(vs: seq<Tracked>, x: nat)
    ensures Count(vs, x) > 0 <==> HasIndex(vs, x)
  {
    if vs != [] {
      CountPositive(vs[1..], x);
      if k :| 0 <= k < |vs[1..]| && vs[1..][k].validator.validatorIndex == x {
        assert vs[k + 1].validator.validatorIndex == x;
      }
      if k :| 0 <= k < |vs| && vs[k].validator.validatorIndex == x {
        assert k > 0 ==> vs[1..][k - 1].validator.validatorIndex == x;
      }
    }
  }

  lemma {:induction false} CountShare(vs: seq<Tracked>, own: seq<Tracked>, x: nat)
    ensures Count(Share(vs, own), x) == if HasIndex(own, x) then Count(vs, x) else 0
  {
    if vs != [] {
      CountShare(vs[1..], own, x);
      CountAppend(if HasIndex(own, vs[0].validator.validatorIndex) then [vs[0]] else [], Share(vs[1..], own), x);
    }
  }

  /** Every group holding an index receives every remaining occurrence of it. */
  lemma {:induction false} CountRedistribute(gs: seq<Group>, remaining: seq<Tracked>, x: nat)
    ensures Count(Flatten(Redistribute(gs, remaining)), x) == Holders(gs, x) * Count(remaining, x)
    ensures Holders(Redistribute(gs, remaining), x) == if Count(remaining, x) > 0 then Holders(gs, x) else 0
  {
    if gs != [] {
      CountRedistribute(gs[1..], remaining, x);
      var rest, share := Redistribute(gs[1..], remaining), Share(remaining, gs[0].validators);
      var g := Group(gs[0].exitRequest, share);
      CountShare(remaining, gs[0].validators, x);
      assert Redistribute(gs, remaining) == (if g.validators == [] then [] else [g]) + rest;
      FlattenStep(g, rest);
      CountAppend(share, Flatten(rest), x);
      HoldersStep(g, rest, x);
      Distribute(if HasIndex(gs[0].validators, x) then 1 else 0, Holders(gs[1..], x), Count(remaining, x));
    }
  }

  lemma {:induction false} HoldersStep(g: Group, rest: seq<Group>, x: nat)
    ensures Holders((if g.validators == [] then [] else [g]) + rest, x) ==
            (if Count(g.validators, x) > 0 then 1 else 0) + Holders(rest, x)
  {
    CountPositive(g.validators, x);
    if g.validators == [] {
      assert [] + rest == rest;
    } else {
      assert ([g] + rest)[1..] == rest;
    }
  }

  /** How often the index occurs among the slot's tracked validators. */
  function TrackedCount(gs: seq<Group>, reported: set<string>, x: nat): nat {
    Count(Keep(Flatten(gs), reported), x)
  }

  /** The multiplicity of an index after one cleanup. */
  lemma {:induction false} CleanupMultiplies(gs: seq<Group>, reported: set<string>, x: nat)
    ensures Count(Flatten(CleanSlot(gs, reported)), x) == Holders(gs, x) * TrackedCount(gs, reported, x)
  {
    CountRedistribute(gs, Keep(Flatten(gs), reported), x);
  }

  function CleanTimes(gs: seq<Group>, reported: set<string>, n: nat): seq<Group> {
    if n == 0 then gs else CleanSlot(CleanTimes(gs, reported, n - 1), reported)
  }

  lemma {:induction false} KeepAllReported(vs: seq<Tracked>, reported: set<string>)
    requires forall e :: e in vs ==> e.validator.pubkey in reported
    ensures Keep(vs, reported) == vs
  {
    if vs != [] {
      KeepAllReported(vs[1..], reported);
    }
  }

  /**
    Cleaning the same slot n times multiplies the occurrences of an index by the number of groups
    that hold it, each time: they grow exponentially as soon as two groups share it.
   */
  lemma {:induction false} CleanupGrowth(gs: seq<Group>, reported: set<string>, x: nat, n: nat)
    ensures TrackedCount(CleanTimes(gs, reported, n), reported, x) ==
            Pow(Holders(gs, x), n) * TrackedCount(gs, reported, x)
    ensures TrackedCount(gs, reported, x) > 0 ==> Holders(CleanTimes(gs, reported, n), x) == Holders(gs, x)
  {
    if n > 0 {
      var before := CleanTimes(gs, reported, n - 1);
      CleanupGrowth(gs, reported, x, n - 1);
      CountAfterClean(before, reported, x);
      if TrackedCount(gs, reported, x) > 0 {
        SharedIndexHeld(gs, reported, x);
      }
      GrowthStep(Holders(gs, x), n, TrackedCount(gs, reported, x), Holders(before, x),
                 TrackedCount(before, reported, x));
    }
  }

  lemma GrowthStep(k: nat, n: nat, kept: nat, holders: nat, count: nat)
    requires n > 0 && count == Pow(k, n - 1) * kept
    requires kept > 0 ==> k > 0 && holders == k
    ensures holders * count == Pow(k, n) * kept
    ensures kept > 0 ==> count > 0
  {
    if kept > 0 {
      PowPositive(k, n - 1);
      PositiveProduct(Pow(k, n - 1), kept);
      Associate(k, Pow(k, n - 1), kept);
    }
  }

  lemma {:induction false} CountAfterClean(gs: seq<Group>, reported: set<string>, x: nat)
    ensures TrackedCount(CleanSlot(gs, reported), reported, x) == Holders(gs, x) * TrackedCount(gs, reported, x)
    ensures Holders(CleanSlot(gs, reported), x) == if TrackedCount(gs, reported, x) > 0 then Holders(gs, x) else 0
  {
    CountRedistribute(gs, Keep(Flatten(gs), reported), x);
    forall e | e in Flatten(CleanSlot(gs, reported)) ensures e.validator.pubkey in reported {
      CleanSlotMember(gs, reported, e);
    }
    KeepAllReported(Flatten(CleanSlot(gs, reported)), reported);
  }

  lemma PositiveProduct(a: nat, b: nat)
    requires a > 0 && b > 0
    ensures a * b > 0
  {
  }

  lemma Associate(a: int, b: int, c: int)
    ensures a * (b * c) == (a * b) * c
  {
  }

  lemma {:induction false} PowPositive(b: nat, n: nat)
    requires b > 0
    ensures Pow(b, n) > 0
  {
    if n > 0 {
      PowPositive(b, n - 1);
    }
  }

  lemma {:induction false} SharedIndexHeld(gs: seq<Group>, reported: set<string>, x: nat)
    requires TrackedCount(gs, reported, x) > 0
    ensures Holders(gs, x) > 0
  {
    CountPositive(Keep(Flatten(gs), reported), x);
    var k :| 0 <= k < |Keep(Flatten(gs), reported)| && Keep(Flatten(gs), reported)[k].validator.validatorIndex == x;
    var e := Keep(Flatten(gs), reported)[k];
    KeepMember(Flatten(gs), reported, e);
    FlattenMember(gs, e);
    var j :| 0 <= j < |gs| && e in gs[j].validators;
    HolderCounts(gs, x, j);
  }

  lemma {:induction false} HolderCounts(gs: seq<Group>, x: nat, j: nat)
    requires j < |gs| && HasIndex(gs[j].validators, x)
    ensures Holders(gs, x) > 0
  {
    if j > 0 {
      HolderCounts(gs[1..], x, j - 1);
    }
  }
}
