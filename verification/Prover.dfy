/** The prover service: its storage and reported set across cycles, any of which may throw part-way. */
module Prover {
  import opened Wrappers
  import opened Arithmetic
  import opened Enumeration
  import opened ExitData
  import opened Batches
  import opened AvailableSlots
  import opened ValidatorStorage
  import opened StorageInvariant
  import opened SlotProcessing
  import opened Grouping
  import opened ExitEvents

  /** The finalized state: not fetched, fetched but not deserialized, or usable. */
  datatype Finalized = FinalizedUnavailable | FinalizedCorrupt | FinalizedAt(slot: int, registry: seq<ValidatorRecord>)

  /** The answers of the outside during one cycle. */
  datatype CycleAnswers = CycleAnswers(finalized: Finalized, requests: Range -> Answer<seq<ExitRequest>>,
                                       deliveryReplies: string -> bool, threshold: Entry -> Answer<nat>,
                                       slots: int -> SlotAnswers)

  datatype Outcome = CycleDone | CycleSkipped | CycleThrew

  const BLOCK_BATCH_SIZE := 10000

  /** Seconds of a day over the average block time that the program assumes. */
  const BLOCKS_PER_DAY := 86400 / 12

  /** Where start-up begins to scan. */
  function StartBlock(lookbackDays: nat, head: int): int {
    Max(1, head - lookbackDays * BLOCKS_PER_DAY)
  }

  /** The ranges that a cycle scans its blocks in. */
  ghost predicate BlockRanges(batches: seq<Range>, fromBlock: int, toBlock: int) {
    if fromBlock <= toBlock then Partitions(batches, fromBlock, toBlock, BLOCK_BATCH_SIZE)
    else batches == [Range(fromBlock, toBlock)]
  }

  /** The first n ranges hold exactly the blocks up to where they reach, and all ranges reach the last block. */
  lemma BatchesCover(batches: seq<Range>, fromBlock: int, toBlock: int, n: nat)
    requires BlockRanges(batches, fromBlock, toBlock) && n <= |batches|
    ensures forall b :: Covered(batches[..n], b) <==> fromBlock <= b <= ReachOf(batches[..n], fromBlock)
    ensures n == |batches| ==> ReachOf(batches[..n], fromBlock) == toBlock
    ensures fromBlock <= toBlock ==> ReachOf(batches[..n], fromBlock) <= toBlock
  {
    if fromBlock <= toBlock {
      PrefixCovers(batches, fromBlock, toBlock, BLOCK_BATCH_SIZE, n);
    }
  }

  /** Storage after these block ranges, up to the first that throws, and the number of ranges completed. */
  function AddBatches(w: World, c: CycleAnswers, storage: Storage, batches: seq<Range>): (r: (Storage, nat))
    requires w.cfg.Valid() && c.finalized.FinalizedAt?
    ensures r.1 <= |batches|
    decreases |batches|
  {
    if batches == [] || c.requests(batches[0]).Fails? then (storage, 0)
    else
      var (after, threw) :=
        AddRequests(w, Lookup(c.finalized.registry, c.threshold), c.deliveryReplies, storage,
                    c.requests(batches[0]).value);
      if threw then (after, 0)
      else
        var (last, done) := AddBatches(w, c, after, batches[1..]);
        (last, done + 1)
  }

  /** The same storage, with i more ranges completed. */
  function Later(i: nat, r: (Storage, nat)): (Storage, nat) {
    (r.0, i + r.1)
  }

  lemma {:induction false} AddBatchesStep(w: World, c: CycleAnswers, storage: Storage, batches: seq<Range>, i: nat)
    requires w.cfg.Valid() && c.finalized.FinalizedAt? && i < |batches|
    ensures AddBatches(w, c, storage, batches[i..]) ==
            if c.requests(batches[i]).Fails? then (storage, 0)
            else
              var (after, threw) :=
                AddRequests(w, Lookup(c.finalized.registry, c.threshold), c.deliveryReplies, storage,
                            c.requests(batches[i]).value);
              if threw then (after, 0)
              else
                var (last, done) := AddBatches(w, c, after, batches[i + 1..]);
                (last, done + 1)
  {
    assert batches[i..][0] == batches[i] && batches[i..][1..] == batches[i + 1..];
  }

  /** What processing each slot of the order comes to; it does not depend on the reported set. */
  function RunsFor(w: World, batchSize: nat, storage: Storage, slots: int -> SlotAnswers, order: seq<int>): seq<SlotRun>
    requires batchSize >= 1 && forall d :: d in order ==> d in storage && storage[d] != []
  {
    seq(|order|, i requires 0 <= i < |order| =>
      RunSlot(w, batchSize, order[i] + 1, storage[order[i]], slots(order[i])))
  }

  lemma RunAt(w: World, batchSize: nat, storage: Storage, slots: int -> SlotAnswers, order: seq<int>, i: nat)
    requires batchSize >= 1 && forall d :: d in order ==> d in storage && storage[d] != []
    requires i < |order|
    ensures var d := order[i];
            && d in order
            && RunsFor(w, batchSize, storage, slots, order)[i] == RunSlot(w, batchSize, d + 1, storage[d], slots(d))
  {
  }

  /** The reported set after these runs, up to the first that throws; whether one did. */
  function ApplyRuns(runs: seq<SlotRun>, reported: set<string>): (set<string>, bool) {
    if runs == [] then (reported, false)
    else
      var after := (reported - runs[0].cleared) + runs[0].Sent();
      if runs[0].threw then (after, true) else ApplyRuns(runs[1..], after)
  }

  /** The calls of the executor that these runs made, up to the first that throws. */
  function AllSubmissions(runs: seq<SlotRun>): seq<Submission> {
    if runs == [] then []
    else runs[0].submissions + if runs[0].threw then [] else AllSubmissions(runs[1..])
  }

  lemma {:induction false} AddRequestsKeepsOk(w: World, lk: Lookup, deliveryReplies: string -> bool,
                                              storage: Storage, reported: set<string>, requests: seq<ExitRequest>)
    requires w.cfg.Valid() && Ok(w, storage, reported)
    ensures Ok(w, AddRequests(w, lk, deliveryReplies, storage, requests).0, reported)
    decreases |requests|
  {
    if requests != [] && AddRequest(w, lk, deliveryReplies, storage, requests[0]).Reply? {
      AddRequestKeepsOk(w, lk, deliveryReplies, storage, reported, requests[0]);
      AddRequestsKeepsOk(w, lk, deliveryReplies, AddRequest(w, lk, deliveryReplies, storage, requests[0]).value,
                         reported, requests[1..]);
    }
  }

  /** However many batches complete, and wherever accumulation throws, the invariant stays. */
  lemma {:induction false} AddBatchesKeepsOk(w: World, c: CycleAnswers, storage: Storage, reported: set<string>,
                                             batches: seq<Range>)
    requires w.cfg.Valid() && c.finalized.FinalizedAt? && Ok(w, storage, reported)
    ensures Ok(w, AddBatches(w, c, storage, batches).0, reported)
    decreases |batches|
  {
    if batches != [] && c.requests(batches[0]).Reply? {
      var lk := Lookup(c.finalized.registry, c.threshold);
      AddRequestsKeepsOk(w, lk, c.deliveryReplies, storage, reported, c.requests(batches[0]).value);
      var (after, threw) := AddRequests(w, lk, c.deliveryReplies, storage, c.requests(batches[0]).value);
      if !threw {
        AddBatchesKeepsOk(w, c, after, reported, batches[1..]);
      }
    }
  }

  /** Nothing stored is lost: every slot keeps its groups, and new ones come after them. */
  ghost predicate Extends(before: Storage, after: Storage) {
    forall d :: d in before ==> d in after && before[d] <= after[d]
  }

  lemma {:induction false} AddRequestsExtends(w: World, lk: Lookup, deliveryReplies: string -> bool,
                                              storage: Storage, requests: seq<ExitRequest>)
    requires w.cfg.Valid()
    ensures Extends(storage, AddRequests(w, lk, deliveryReplies, storage, requests).0)
    decreases |requests|
  {
    if requests != [] && AddRequest(w, lk, deliveryReplies, storage, requests[0]).Reply? {
      AddRequestsExtends(w, lk, deliveryReplies, AddRequest(w, lk, deliveryReplies, storage, requests[0]).value,
                         requests[1..]);
    }
  }

  /** Accumulating, completed or not, loses nothing that was stored. */
  lemma {:induction false} AddBatchesExtends(w: World, c: CycleAnswers, storage: Storage, batches: seq<Range>)
    requires w.cfg.Valid() && c.finalized.FinalizedAt?
    ensures Extends(storage, AddBatches(w, c, storage, batches).0)
    decreases |batches|
  {
    if batches != [] && c.requests(batches[0]).Reply? {
      var lk := Lookup(c.finalized.registry, c.threshold);
      AddRequestsExtends(w, lk, c.deliveryReplies, storage, c.requests(batches[0]).value);
      var (after, threw) := AddRequests(w, lk, c.deliveryReplies, storage, c.requests(batches[0]).value);
      if !threw {
        AddBatchesExtends(w, c, after, batches[1..]);
      }
    }
  }

  /** A group of one of the first n ranges' requests. */
  ghost predicate FromRanges(w: World, c: CycleAnswers, batches: seq<Range>, n: nat, d: int, g: Group)
    requires w.cfg.Valid() && c.finalized.FinalizedAt? && n <= |batches|
  {
    exists i :: 0 <= i < n && FromRange(w, c, batches[i], d, g)
  }

  ghost predicate FromRange(w: World, c: CycleAnswers, range: Range, d: int, g: Group)
    requires w.cfg.Valid() && c.finalized.FinalizedAt?
  {
    c.requests(range).Reply? && exists r :: r in c.requests(range).value && GroupOf(w, LookupOf(c), r, d, g)
  }

  function LookupOf(c: CycleAnswers): Lookup
    requires c.finalized.FinalizedAt?
  {
    Lookup(c.finalized.registry, c.threshold)
  }

  /** The storage after one range, and whether it throws. */
  function AddRange(w: World, c: CycleAnswers, storage: Storage, range: Range): (Storage, bool)
    requires w.cfg.Valid() && c.finalized.FinalizedAt?
  {
    if c.requests(range).Fails? then (storage, true)
    else AddRequests(w, LookupOf(c), c.deliveryReplies, storage, c.requests(range).value)
  }

  lemma AddRangeGroups(w: World, c: CycleAnswers, storage: Storage, range: Range, d: int, g: Group)
    requires w.cfg.Valid() && c.finalized.FinalizedAt?
    ensures var (after, threw) := AddRange(w, c, storage, range);
            && (InSlot(after, d, g) ==> InSlot(storage, d, g) || FromRange(w, c, range, d, g))
            && (InSlot(storage, d, g) || (!threw && FromRange(w, c, range, d, g)) ==> InSlot(after, d, g))
  {
    if c.requests(range).Reply? {
      AddRequestsGroups(w, LookupOf(c), c.deliveryReplies, storage, c.requests(range).value, d, g);
    }
  }

  lemma {:induction false} AddBatchesFirst(w: World, c: CycleAnswers, storage: Storage, batches: seq<Range>)
    requires w.cfg.Valid() && c.finalized.FinalizedAt? && batches != []
    ensures var (after, threw) := AddRange(w, c, storage, batches[0]);
            AddBatches(w, c, storage, batches) ==
            if threw then (after, 0) else Later(1, AddBatches(w, c, after, batches[1..]))
  {
  }

  lemma {:induction false} CompletedAreStored(w: World, c: CycleAnswers, storage: Storage, batches: seq<Range>,
                                              d: int, g: Group)
    requires w.cfg.Valid() && c.finalized.FinalizedAt?
    ensures var (after, done) := AddBatches(w, c, storage, batches);
            InSlot(storage, d, g) || FromRanges(w, c, batches, done, d, g) ==> InSlot(after, d, g)
    decreases |batches|
  {
    if batches != [] {
      var (after, threw) := AddRange(w, c, storage, batches[0]);
      AddRangeGroups(w, c, storage, batches[0], d, g);
      AddBatchesFirst(w, c, storage, batches);
      if !threw {
        CompletedAreStored(w, c, after, batches[1..], d, g);
        FromRest(w, c, batches, AddBatches(w, c, after, batches[1..]).1, d, g);
      }
    }
  }

  /** The ranges started when n of all were completed. */
  function Started(n: nat, all: nat): nat
    requires n <= all
  {
    if n < all then n + 1 else n
  }

  lemma {:induction false} StoredAreStarted(w: World, c: CycleAnswers, storage: Storage, batches: seq<Range>,
                                            d: int, g: Group)
    requires w.cfg.Valid() && c.finalized.FinalizedAt? && !InSlot(storage, d, g)
    requires InSlot(AddBatches(w, c, storage, batches).0, d, g)
    ensures FromRanges(w, c, batches, Started(AddBatches(w, c, storage, batches).1, |batches|), d, g)
    decreases |batches|
  {
    if batches != [] {
      var (after, threw) := AddRange(w, c, storage, batches[0]);
      AddRangeGroups(w, c, storage, batches[0], d, g);
      AddBatchesFirst(w, c, storage, batches);
      FromRest(w, c, batches, 0, d, g);
      if !threw {
        var rest := batches[1..];
        var n := AddBatches(w, c, after, rest).1;
        assert Started(n + 1, |batches|) == Started(n, |rest|) + 1;
        FromRest(w, c, batches, Started(n, |rest|), d, g);
        if !InSlot(after, d, g) {
          StoredAreStarted(w, c, after, rest, d, g);
        }
      }
    }
  }

  /**
    Accumulating stores the groups of all requests of the ranges it completes, and besides what was
    stored only groups of those and of the range in which it throws.
   */
  lemma {:induction false} AddBatchesGroups(w: World, c: CycleAnswers, storage: Storage, batches: seq<Range>, d: int,
                                            g: Group)
    requires w.cfg.Valid() && c.finalized.FinalizedAt?
    ensures var (after, done) := AddBatches(w, c, storage, batches);
            && (InSlot(storage, d, g) || FromRanges(w, c, batches, done, d, g) ==> InSlot(after, d, g))
            && (InSlot(after, d, g) ==>
                  InSlot(storage, d, g) || FromRanges(w, c, batches, Started(done, |batches|), d, g))
  {
    CompletedAreStored(w, c, storage, batches, d, g);
    if !InSlot(storage, d, g) && InSlot(AddBatches(w, c, storage, batches).0, d, g) {
      StoredAreStarted(w, c, storage, batches, d, g);
    }
  }

  lemma FromRest(w: World, c: CycleAnswers, batches: seq<Range>, n: nat, d: int, g: Group)
    requires w.cfg.Valid() && c.finalized.FinalizedAt? && n < |batches|
    ensures FromRanges(w, c, batches, n + 1, d, g) <==>
            FromRange(w, c, batches[0], d, g) || FromRanges(w, c, batches[1..], n, d, g)
  {
    if i :| 0 <= i < n + 1 && FromRange(w, c, batches[i], d, g) {
      assert i > 0 ==> batches[1..][i - 1] == batches[i];
    }
    if i :| 0 <= i < n && FromRange(w, c, batches[1..][i], d, g) {
      assert batches[i + 1] == batches[1..][i];
    }
  }

  /**
    When a scan completes, a request that was not stored before is stored, in the slots of its
    validators, exactly when some event in the ranges could be read as it. Progress moves on in
    either case.
   */
  lemma {:induction false} ScannedRequestStored(w: World, c: CycleAnswers, events: Range -> Answer<seq<Event>>,
                                                storage: Storage,
                                                batches: seq<Range>, d: int, g: Group)
    requires w.cfg.Valid() && c.finalized.FinalizedAt? && AddBatches(w, c, storage, batches).1 == |batches|
    requires forall range :: c.requests(range) == RequestsIn(events(range))
    requires !InSlot(storage, d, g) && GroupOf(w, LookupOf(c), g.exitRequest, d, g)
    ensures InSlot(AddBatches(w, c, storage, batches).0, d, g) <==>
            exists i :: 0 <= i < |batches| && events(batches[i]).Reply?
                        && Read(g.exitRequest) in events(batches[i]).value
  {
    AddBatchesGroups(w, c, storage, batches, d, g);
    forall i | 0 <= i < |batches|
      ensures FromRange(w, c, batches[i], d, g) <==>
              events(batches[i]).Reply? && Read(g.exitRequest) in events(batches[i]).value
    {
      RequestsExact(events(batches[i]), g.exitRequest);
    }
  }

  lemma AppendAssociates<T>(a: seq<T>, b: seq<T>, c: seq<T>)
    ensures a + (b + c) == a + b + c
  {
  }

  lemma {:induction false} ApplyRunsStep(runs: seq<SlotRun>, i: nat, reported: set<string>)
    requires i < |runs|
    ensures var after := (reported - runs[i].cleared) + runs[i].Sent();
            ApplyRuns(runs[i..], reported) == if runs[i].threw then (after, true) else ApplyRuns(runs[i + 1..], after)
    ensures AllSubmissions(runs[i..]) ==
            runs[i].submissions + if runs[i].threw then [] else AllSubmissions(runs[i + 1..])
  {
    assert runs[i..][0] == runs[i] && runs[i..][1..] == runs[i + 1..];
  }

  lemma RunsReportStored(w: World, batchSize: nat, storage: Storage, slots: int -> SlotAnswers, order: seq<int>, i: nat,
                         p: string)
    requires batchSize >= 1 && forall d :: d in order ==> d in storage && storage[d] != []
    requires i < |order| && p in RunsFor(w, batchSize, storage, slots, order)[i].Sent()
    ensures Stored(storage, p)
  {
    SentAreWitnessed(w, batchSize, order[i] + 1, storage[order[i]], slots(order[i]), p);
  }

  // ---------- what was submitted ----------

  /** Every submission belongs to a stored slot up to the current one, which explains it. */
  ghost predicate AllExplained(storage: Storage, currentSlot: int, submissions: seq<Submission>) {
    forall s :: s in submissions ==> exists d :: d in storage && d <= currentSlot && Explained(storage[d], s)
  }

  /** The submissions are those of the runs made. */
  lemma {:induction false} AllSubmissionsMember(runs: seq<SlotRun>, n: nat, s: Submission)
    requires Made(runs, n)
    ensures s in AllSubmissions(runs) <==> exists i :: 0 <= i < n && s in runs[i].submissions
    decreases |runs|
  {
    if n > 0 {
      if !runs[0].threw {
        AllSubmissionsMember(runs[1..], n - 1, s);
        if i :| 0 <= i < n - 1 && s in runs[1..][i].submissions {
          assert s in runs[i + 1].submissions;
        }
        if i :| 0 <= i < n && s in runs[i].submissions {
          assert i > 0 ==> s in runs[1..][i - 1].submissions;
        }
      }
    }
  }

  /** How many runs are made. */
  lemma {:induction false} MadeCount(runs: seq<SlotRun>) returns (n: nat)
    ensures Made(runs, n)
    decreases |runs|
  {
    if runs == [] {
      n := 0;
    } else if runs[0].threw {
      n := 1;
    } else {
      n := MadeCount(runs[1..]);
      assert forall i :: 0 <= i < |runs[1..]| ==> runs[1..][i] == runs[i + 1];
      n := n + 1;
    }
  }

  /** Whatever order the slots are taken in, and wherever one throws, every submission is explained by its slot. */
  lemma {:induction false} RunsExplained(storage: Storage, currentSlot: int, order: seq<int>, runs: seq<SlotRun>)
    requires |runs| == |order|
    requires forall i :: 0 <= i < |order| ==> order[i] in storage && order[i] <= currentSlot
    requires forall i :: 0 <= i < |order| ==> ExplainedRun(storage[order[i]], runs[i])
    ensures AllExplained(storage, currentSlot, AllSubmissions(runs))
  {
    forall s | s in AllSubmissions(runs)
      ensures exists d :: d in storage && d <= currentSlot && Explained(storage[d], s)
    {
      var n := MadeCount(runs);
      AllSubmissionsMember(runs, n, s);
      var i :| 0 <= i < |runs| && s in runs[i].submissions;
      assert ExplainedRun(storage[order[i]], runs[i]);
    }
  }

  lemma RunExplainedAt(w: World, batchSize: nat, storage: Storage, slots: int -> SlotAnswers, order: seq<int>, i: nat)
    requires batchSize >= 1 && i < |order| && forall d :: d in order ==> d in storage && storage[d] != []
    requires order[i] in order && SlotExplains(w, batchSize, storage, slots, order[i])
    ensures ExplainedRun(storage[order[i]], RunsFor(w, batchSize, storage, slots, order)[i])
  {
    RunAt(w, batchSize, storage, slots, order, i);
  }

  /** Whatever the slot submits it explains. */
  ghost predicate SlotExplains(w: World, batchSize: nat, storage: Storage, slots: int -> SlotAnswers, d: int)
    requires batchSize >= 1 && d in storage && storage[d] != []
  {
    ExplainedRun(storage[d], RunSlot(w, batchSize, d + 1, storage[d], slots(d)))
  }

  lemma StoredExplain(w: World, batchSize: nat, storage: Storage, slots: int -> SlotAnswers, d: int)
    requires w.cfg.Valid() && batchSize >= 1 && d in storage && SlotOk(w, d, storage[d])
    ensures SlotExplains(w, batchSize, storage, slots, d)
  {
    RunExplained(w, batchSize, d, storage[d], slots(d), RunSlot(w, batchSize, d + 1, storage[d], slots(d)));
  }

  /** Wherever processing throws, every reported key is still stored. */
  lemma {:induction false} ApplyRunsKeepsOk(w: World, storage: Storage, runs: seq<SlotRun>, reported: set<string>)
    requires w.cfg.Valid() && Ok(w, storage, reported)
    requires forall i, p :: 0 <= i < |runs| && p in runs[i].Sent() ==> Stored(storage, p)
    ensures Ok(w, storage, ApplyRuns(runs, reported).0)
    decreases |runs|
  {
    if runs != [] {
      ReportKeepsOk(w, storage, reported, runs[0].cleared, runs[0].Sent());
      if !runs[0].threw {
        ApplyRunsKeepsOk(w, storage, runs[1..], (reported - runs[0].cleared) + runs[0].Sent());
      }
    }
  }

  // ---------- what a completed cycle keeps ----------

  /** The last thing the runs did with the key was to report it, or it was reported and they left it alone. */
  ghost predicate EndsReported(runs: seq<SlotRun>, reported: set<string>, p: string) {
    || (p in reported && forall i :: 0 <= i < |runs| ==> p !in runs[i].cleared)
    || exists i :: 0 <= i < |runs| && p in runs[i].Sent() && forall j :: i < j < |runs| ==> p !in runs[j].cleared
  }

  /** The first n runs are those made: none of them threw but perhaps the last, and all if none did. */
  ghost predicate Made(runs: seq<SlotRun>, n: nat) {
    && n <= |runs| && (forall i :: 0 <= i < n - 1 ==> !runs[i].threw)
    && (n < |runs| ==> n > 0 && runs[n - 1].threw)
  }

  lemma {:induction false} ReportedExact(runs: seq<SlotRun>, reported: set<string>, p: string, n: nat)
    requires Made(runs, n)
    ensures p in ApplyRuns(runs, reported).0 <==> EndsReported(runs[..n], reported, p)
  {
    MadeReport(runs, reported, n);
    LastDecides(runs[..n], reported, p);
  }

  /** The reported set after these runs, one after the other. */
  function Folded(runs: seq<SlotRun>, reported: set<string>): set<string> {
    if runs == [] then reported else Folded(runs[1..], (reported - runs[0].cleared) + runs[0].Sent())
  }

  lemma {:induction false} MadeReport(runs: seq<SlotRun>, reported: set<string>, n: nat)
    requires Made(runs, n)
    ensures ApplyRuns(runs, reported).0 == Folded(runs[..n], reported)
    decreases |runs|
  {
    if n > 0 {
      assert runs[..n][1..] == runs[1..][..n - 1];
      if runs[0].threw {
        assert runs[..n][1..] == [];
      } else {
        MadeReport(runs[1..], (reported - runs[0].cleared) + runs[0].Sent(), n - 1);
      }
    }
  }

  lemma {:induction false} LastDecides(runs: seq<SlotRun>, reported: set<string>, p: string)
    ensures p in Folded(runs, reported) <==> EndsReported(runs, reported, p)
    decreases |runs|
  {
    if runs != [] {
      var after, rest := (reported - runs[0].cleared) + runs[0].Sent(), runs[1..];
      LastDecides(rest, after, p);
      if EndsReported(rest, after, p) {
        EndsReportedShift(runs, reported, after, p);
      }
      if i :| 0 <= i < |runs| && p in runs[i].Sent() && forall j :: i < j < |runs| ==> p !in runs[j].cleared {
        if i > 0 {
          assert rest[i - 1] == runs[i];
        }
        assert forall j :: 0 <= j < |rest| ==> rest[j] == runs[j + 1];
      }
    }
  }

  lemma EndsReportedShift(runs: seq<SlotRun>, reported: set<string>, after: set<string>, p: string)
    requires runs != [] && after == (reported - runs[0].cleared) + runs[0].Sent() && EndsReported(runs[1..], after, p)
    ensures EndsReported(runs, reported, p)
  {
    var rest := runs[1..];
    if k :| 0 <= k < |rest| && p in rest[k].Sent() && forall j :: k < j < |rest| ==> p !in rest[j].cleared {
      forall j | k + 1 < j < |runs| ensures p !in runs[j].cleared {
        assert runs[j] == rest[j - 1];
      }
      assert p in runs[k + 1].Sent();
    } else {
      forall j | 0 < j < |runs| ensures p !in runs[j].cleared {
        assert runs[j] == rest[j - 1];
      }
      if p in runs[0].Sent() {
        assert EndsReported(runs, reported, p);
      }
    }
  }

  /** The validator is not in storage any more. */
  ghost predicate Dropped(after: Storage, d: int, e: Tracked) {
    d in after ==> e !in Flatten(after[d])
  }

  /** A completed cycle drops a validator of a processed slot exactly when its key does not end up reported. */
  lemma {:induction false} DroppedExact(before: Storage, after: Storage, runs: seq<SlotRun>, reported: set<string>,
                                        currentSlot: int,
                                        d: int, e: Tracked)
    requires !ApplyRuns(runs, reported).1 && CleanedUpTo(before, after, ApplyRuns(runs, reported).0, currentSlot)
    requires d in before && d <= currentSlot && e in Flatten(before[d])
    ensures Dropped(after, d, e) <==> !EndsReported(runs, reported, e.validator.pubkey)
  {
    forall i | 0 <= i < |runs| ensures !runs[i].threw {
      NoRunThrew(runs, reported, i);
    }
    ReportedExact(runs, reported, e.validator.pubkey, |runs|);
    assert runs[..|runs|] == runs;
    OnlyReportedRemain(before, after, ApplyRuns(runs, reported).0, currentSlot, d, e);
  }

  lemma {:induction false} NoRunThrew(runs: seq<SlotRun>, reported: set<string>, i: nat)
    requires !ApplyRuns(runs, reported).1 && i < |runs|
    ensures !runs[i].threw
    decreases |runs|
  {
    ApplyRunsThrows(runs, reported);
  }

  /** Only slot d holds the key. */
  ghost predicate OnlyIn(storage: Storage, d: int, p: string) {
    forall d', e :: d' in storage && e in Flatten(storage[d']) && e.validator.pubkey == p ==> d' == d
  }

  /** With its key in one slot only, whether the key ends up reported is decided by that slot's run. */
  lemma OneSlotDecides(w: World, batchSize: nat, storage: Storage, slots: int -> SlotAnswers, order: seq<int>,
                       reported: set<string>, i: nat, p: string)
    requires batchSize >= 1 && forall d :: d in order ==> d in storage && storage[d] != []
    requires forall j, k :: 0 <= j < k < |order| ==> order[j] != order[k]
    requires i < |order| && order[i] in order && p !in reported && OnlyIn(storage, order[i], p)
    ensures var runs := RunsFor(w, batchSize, storage, slots, order);
            EndsReported(runs, reported, p) <==> p in runs[i].Sent()
  {
    var runs := RunsFor(w, batchSize, storage, slots, order);
    forall j | 0 <= j < |runs| && j != i ensures p !in runs[j].Sent() && p !in runs[j].cleared {
      OtherRunLeavesKey(w, batchSize, storage, slots, order, order[i], j, p);
    }
  }

  lemma OtherRunLeavesKey(w: World, batchSize: nat, storage: Storage, slots: int -> SlotAnswers, order: seq<int>,
                          d: int, j: nat, p: string)
    requires batchSize >= 1 && forall d :: d in order ==> d in storage && storage[d] != []
    requires j < |order| && order[j] in order && order[j] != d && OnlyIn(storage, d, p)
    ensures var run := RunsFor(w, batchSize, storage, slots, order)[j]; p !in run.Sent() && p !in run.cleared
  {
    var other := order[j];
    RunAt(w, batchSize, storage, slots, order, j);
    if exists e :: e in Flatten(storage[other]) && e.validator.pubkey == p {
      assert false;
    }
    var run := RunsFor(w, batchSize, storage, slots, order)[j];
    RunKeysAreOwn(w, batchSize, other + 1, storage[other], slots(other), run, p);
  }

  /** Judged late, if its deadline state can be read. */
  ghost predicate IsLate(w: World, d: int, gs: seq<Group>, a: SlotAnswers, k: nat)
    requires gs != [] && k < |Flatten(gs)|
  {
    a.state.Loaded? && NextSlot(a.headers, d + 1, MAX_ATTEMPTS).Reply? ==>
      Judge(w.cfg, ExaminationFor(w, gs, a, NextSlot(a.headers, d + 1, MAX_ATTEMPTS).value), k, Flatten(gs)[k]).Late?
  }

  /** Every batch with the key was skipped. */
  ghost predicate AllSkipped(w: World, batchSize: nat, d: int, gs: seq<Group>, a: SlotAnswers, p: string)
    requires batchSize >= 1 && gs != []
  {
    Examine(w, d + 1, gs, a).0.Reply? ==>
      var slot := d + 1;
      forall b: nat :: BatchHolds(w, batchSize, slot, gs, a, b, p) ==> BatchSkipped(w, slot, a, b)
  }

  lemma {:induction false} LateSentExact(w: World, batchSize: nat, d: int, gs: seq<Group>, a: SlotAnswers, k: nat)
    requires batchSize >= 1 && gs != [] && k < |Flatten(gs)| && IsLate(w, d, gs, a, k)
    requires !RunSlot(w, batchSize, d + 1, gs, a).threw
    ensures var p := Flatten(gs)[k].validator.pubkey;
            p in RunSlot(w, batchSize, d + 1, gs, a).Sent() <==>
            !(a.state.Corrupt? || AllSkipped(w, batchSize, d, gs, a, p))
  {
    var p := Flatten(gs)[k].validator.pubkey;
    SentExact(w, batchSize, d + 1, gs, a, p);
    if a.state.Loaded? {
      var b := LateHasBatch(w, batchSize, d + 1, gs, a, k);
    }
  }

  /** The cycle processed the slots in this order, each once, none threw, and cleanup followed. */
  ghost predicate Completed(w: World, batchSize: nat, before: Storage, after: Storage, slots: int -> SlotAnswers,
                            order: seq<int>, reported: set<string>, currentSlot: int)
    requires batchSize >= 1
  {
    && (forall d :: d in order ==> d in before && d <= currentSlot && before[d] != [])
    && (forall j, k :: 0 <= j < k < |order| ==> order[j] != order[k])
    && var (final, threw) := ApplyRuns(RunsFor(w, batchSize, before, slots, order), reported);
       !threw && CleanedUpTo(before, after, final, currentSlot)
  }

  lemma DroppedUnlessSent(w: World, batchSize: nat, before: Storage, after: Storage, slots: int -> SlotAnswers,
                          order: seq<int>, reported: set<string>, currentSlot: int, d: int, e: Tracked)
    returns (i: nat)
    requires batchSize >= 1 && Completed(w, batchSize, before, after, slots, order, reported, currentSlot)
    requires d in order && e in Flatten(before[d]) && e.validator.pubkey !in reported
             && OnlyIn(before, d, e.validator.pubkey)
    ensures i < |order| && order[i] == d
    ensures var run := RunsFor(w, batchSize, before, slots, order)[i];
            !run.threw && (Dropped(after, d, e) <==> e.validator.pubkey !in run.Sent())
  {
    var runs := RunsFor(w, batchSize, before, slots, order);
    i :| 0 <= i < |order| && order[i] == d;
    NoRunThrew(runs, reported, i);
    DroppedExact(before, after, runs, reported, currentSlot, d, e);
    OneSlotDecides(w, batchSize, before, slots, order, reported, i, e.validator.pubkey);
  }

  /**
    A late validator with a key that is not reported yet and occurs in one slot only is dropped by
    the very cycle that found it late, never to be submitted, exactly when the deadline state was
    corrupt or every batch with its key was skipped for a corrupt summary state.
   */
  lemma LateDroppedExact(w: World, batchSize: nat, before: Storage, after: Storage, slots: int -> SlotAnswers,
                         order: seq<int>, reported: set<string>, currentSlot: int, d: int, k: nat)
    requires batchSize >= 1 && Completed(w, batchSize, before, after, slots, order, reported, currentSlot)
    requires d in order && k < |Flatten(before[d])| && IsLate(w, d, before[d], slots(d), k)
    requires var p := Flatten(before[d])[k].validator.pubkey; p !in reported && OnlyIn(before, d, p)
    ensures var e := Flatten(before[d])[k];
            Dropped(after, d, e) <==>
              slots(d).state.Corrupt? || AllSkipped(w, batchSize, d, before[d], slots(d), e.validator.pubkey)
  {
    var e := Flatten(before[d])[k];
    var i := DroppedUnlessSent(w, batchSize, before, after, slots, order, reported, currentSlot, d, e);
    RunAt(w, batchSize, before, slots, order, i);
    LateSentExact(w, batchSize, d, before[d], slots(d), k);
  }

  // ---------- when a cycle throws ----------

  lemma {:induction false} ApplyRunsThrows(runs: seq<SlotRun>, reported: set<string>)
    ensures ApplyRuns(runs, reported).1 <==> exists i :: 0 <= i < |runs| && runs[i].threw
    decreases |runs|
  {
    if runs != [] && !runs[0].threw {
      ApplyRunsThrows(runs[1..], (reported - runs[0].cleared) + runs[0].Sent());
      if i :| 0 <= i < |runs| && runs[i].threw {
        assert runs[1..][i - 1] == runs[i];
      }
    }
  }

  /** Some slot up to the current one throws when it is processed. */
  ghost predicate SlotsThrow(w: World, batchSize: nat, storage: Storage, slots: int -> SlotAnswers, currentSlot: int)
    requires w.cfg.Valid() && batchSize >= 1
  {
    exists d :: d in storage && d <= currentSlot && storage[d] != []
                && SlotFails(w, batchSize, d, storage[d], slots(d))
  }

  lemma RunThrows(w: World, batchSize: nat, storage: Storage, slots: int -> SlotAnswers, order: seq<int>, i: nat)
    requires w.cfg.Valid() && batchSize >= 1 && forall d :: d in order ==> d in storage && storage[d] != []
    requires i < |order| && order[i] in order && SlotOk(w, order[i], storage[order[i]])
    ensures RunsFor(w, batchSize, storage, slots, order)[i].threw <==>
            SlotFails(w, batchSize, order[i], storage[order[i]], slots(order[i]))
  {
    RunAt(w, batchSize, storage, slots, order, i);
    RunThrowsExact(w, batchSize, order[i], storage[order[i]], slots(order[i]));
  }

  /** Whether processing throws does not depend on the order of the slots or on the reported set. */
  lemma {:induction false} RunsThrowExact(w: World, batchSize: nat, storage: Storage, slots: int -> SlotAnswers,
                                          currentSlot: int,
                                          order: seq<int>, reported: set<string>)
    requires w.cfg.Valid() && batchSize >= 1 && forall d :: d in storage ==> storage[d] != []
    requires forall d :: d in order <==> d in storage && d <= currentSlot
    requires forall d :: d in order ==> SlotOk(w, d, storage[d])
    ensures ApplyRuns(RunsFor(w, batchSize, storage, slots, order), reported).1 <==>
            SlotsThrow(w, batchSize, storage, slots, currentSlot)
  {
    var runs := RunsFor(w, batchSize, storage, slots, order);
    ApplyRunsThrows(runs, reported);
    forall i | 0 <= i < |runs|
      ensures order[i] in order
              && (runs[i].threw <==> SlotFails(w, batchSize, order[i], storage[order[i]], slots(order[i])))
    {
      assert order[i] in order;
      RunThrows(w, batchSize, storage, slots, order, i);
    }
    if d :| d in storage && d <= currentSlot && SlotFails(w, batchSize, d, storage[d], slots(d)) {
      var i :| 0 <= i < |order| && order[i] == d;
      assert runs[i].threw;
    }
  }

  /** The requests of the range cannot be had, or one of them throws. */
  ghost predicate RangeThrows(c: CycleAnswers, range: Range)
    requires c.finalized.FinalizedAt?
  {
    || c.requests(range).Fails?
    || exists r :: r in c.requests(range).value && RequestThrows(LookupOf(c), c.deliveryReplies, r)
  }

  /** Accumulating completes exactly the ranges before the first that throws. */
  lemma {:induction false} CompletedExact(w: World, c: CycleAnswers, storage: Storage, batches: seq<Range>)
    requires w.cfg.Valid() && c.finalized.FinalizedAt?
    ensures var done := AddBatches(w, c, storage, batches).1;
            && (forall i :: 0 <= i < done ==> !RangeThrows(c, batches[i]))
            && (done < |batches| ==> RangeThrows(c, batches[done]))
    decreases |batches|
  {
    if batches != [] {
      AddBatchesFirst(w, c, storage, batches);
      var (after, threw) := AddRange(w, c, storage, batches[0]);
      if c.requests(batches[0]).Reply? {
        AddRequestsThrow(w, LookupOf(c), c.deliveryReplies, storage, c.requests(batches[0]).value);
      }
      if !threw {
        CompletedExact(w, c, after, batches[1..]);
        var done := AddBatches(w, c, after, batches[1..]).1;
        assert done < |batches[1..]| ==> batches[1..][done] == batches[done + 1];
        forall i | 0 <= i < done + 1 ensures !RangeThrows(c, batches[i]) {
          assert i > 0 ==> batches[1..][i - 1] == batches[i];
        }
      }
    }
  }

  /** Some range throws while it is accumulated, or, all accumulated, some slot when it is processed. */
  ghost predicate BatchesOrSlotsThrow(w: World, batchSize: nat, storage: Storage, c: CycleAnswers, batches: seq<Range>)
    requires w.cfg.Valid() && batchSize >= 1 && c.finalized.FinalizedAt?
  {
    || (exists i :: 0 <= i < |batches| && RangeThrows(c, batches[i]))
    || SlotsThrow(w, batchSize, AddBatches(w, c, storage, batches).0, c.slots, c.finalized.slot)
  }

  /**
    A cycle throws when the finalized state cannot be fetched, when a range of its blocks throws, or
    when a slot up to the finalized one does.
   */
  ghost predicate CycleThrows(w: World, batchSize: nat, storage: Storage, c: CycleAnswers, fromBlock: int, toBlock: int)
    requires w.cfg.Valid() && batchSize >= 1
  {
    match c.finalized
    case FinalizedUnavailable => true
    case FinalizedCorrupt => false
    case FinalizedAt(_, _) =>
      exists batches ::
        BlockRanges(batches, fromBlock, toBlock) && BatchesOrSlotsThrow(w, batchSize, storage, c, batches)
  }

  lemma CycleThrowsWith(w: World, batchSize: nat, storage: Storage, c: CycleAnswers, fromBlock: int, toBlock: int,
                        batches: seq<Range>)
    requires w.cfg.Valid() && batchSize >= 1 && c.finalized.FinalizedAt? && BlockRanges(batches, fromBlock, toBlock)
    ensures CycleThrows(w, batchSize, storage, c, fromBlock, toBlock) <==>
            BatchesOrSlotsThrow(w, batchSize, storage, c, batches)
  {
    forall others | BlockRanges(others, fromBlock, toBlock) ensures others == batches {
      if fromBlock <= toBlock {
        PartitionUnique(others, batches, fromBlock, toBlock, BLOCK_BATCH_SIZE);
      }
    }
  }

  /** A reported key is dropped only when the penalty contract said of one of its entries that no penalty applies. */
  lemma {:induction false} ReportedUntilCleared(runs: seq<SlotRun>, reported: set<string>, p: string)
    requires p in reported && p !in ApplyRuns(runs, reported).0
    ensures exists i :: 0 <= i < |runs| && p in runs[i].cleared
    decreases |runs|
  {
    var after := (reported - runs[0].cleared) + runs[0].Sent();
    if p in after {
      ReportedUntilCleared(runs[1..], after, p);
      var i :| 0 <= i < |runs[1..]| && p in runs[1..][i].cleared;
      assert p in runs[i + 1].cleared;
    }
  }

  /** Storage after cleanup of the slots up to the current one. */
  ghost predicate CleanedUpTo(before: Storage, after: Storage, reported: set<string>, currentSlot: int) {
    && (forall d :: d > currentSlot ==> (d in after <==> d in before) && (d in after ==> after[d] == before[d]))
    && (forall d :: d <= currentSlot && d in before ==>
          if CleanSlot(before[d], reported) == [] then d !in after
          else d in after && after[d] == CleanSlot(before[d], reported))
    && (forall d :: d <= currentSlot && d !in before ==> d !in after)
  }

  /** After cleanup only reported validators are left in the slots it covered. */
  lemma OnlyReportedRemain(before: Storage, after: Storage, reported: set<string>, currentSlot: int, d: int, e: Tracked)
    requires CleanedUpTo(before, after, reported, currentSlot) && d <= currentSlot && d in before
    ensures d in after && e in Flatten(after[d]) <==> e in Flatten(before[d]) && e.validator.pubkey in reported
  {
    CleanSlotMember(before[d], reported, e);
  }

  class ProverService {
    const w: World
    const batchSize: nat
    var storage: Storage
    var reported: set<string>
    /** Every call of the executor with its payload, in order. */
    var submitted: seq<Submission>

    /** Every stored slot has a group, every group a validator, every reported key an entry, and the rest of Ok. */
    ghost predicate Valid()
      reads this
    {
      w.cfg.Valid() && batchSize >= 1 && Ok(w, storage, reported)
    }

    constructor (w: World, batchSize: nat)
      requires w.cfg.Valid() && batchSize >= 1
      ensures Valid() && storage == map[] && reported == {} && submitted == [] && this.w == w
              && this.batchSize == batchSize
    {
      this.w := w;
      this.batchSize := batchSize;
      storage := map[];
      reported := {};
      submitted := [];
    }

    method AddToValidatorStorage(added: map<int, Group>)
      modifies this`storage
      ensures storage == AddGroups(old(storage), added)
    {
      var order := Enumerate(added.Keys);
      for i := 0 to |order|
        invariant forall d :: d in storage <==> d in old(storage) || d in order[..i]
        invariant forall d :: d in storage ==>
                    storage[d] ==
                      (if d in old(storage) then old(storage)[d] else []) + (if d in order[..i] then [added[d]] else [])
      {
        var d := order[i];
        assert order[..i + 1] == order[..i] + [d] && d !in order[..i];
        if d !in storage {
          storage := storage[d := []];
        }
        storage := storage[d := storage[d] + [added[d]]];
      }
      assert order[..|order|] == order;
      assert forall d :: d in order <==> d in added;
      assert forall d :: d in storage <==> d in old(storage) || d in added;
      assert storage.Keys == AddGroups(old(storage), added).Keys;
      assert forall d :: d in storage ==> storage[d] == AddGroups(old(storage), added)[d];
    }

    method ProcessExitRequest(lk: Lookup, deliveryReplies: string -> bool, request: ExitRequest) returns (threw: bool)
      requires w.cfg.Valid()
      modifies this`storage
      ensures threw ==> AddRequest(w, lk, deliveryReplies, old(storage), request).Fails? && storage == old(storage)
      ensures !threw ==> AddRequest(w, lk, deliveryReplies, old(storage), request) == Reply(storage)
    {
      var validators := DecodeValidatorsData(request.data);
      if validators.None? || !deliveryReplies(request.hash) {
        return true;
      }
      var validatorsByDeadlineSlot := GroupValidatorsByDeadlineSlot(w, lk, request, validators.value);
      if validatorsByDeadlineSlot.Fails? {
        return true;
      }
      AddToValidatorStorage(validatorsByDeadlineSlot.value);
      return false;
    }

    method ProcessExitRequests(c: CycleAnswers, lk: Lookup, exitRequests: seq<ExitRequest>) returns (threw: bool)
      requires w.cfg.Valid()
      modifies this`storage
      ensures (storage, threw) == AddRequests(w, lk, c.deliveryReplies, old(storage), exitRequests)
    {
      for j := 0 to |exitRequests|
        invariant AddRequests(w, lk, c.deliveryReplies, storage, exitRequests[j..]) ==
                  AddRequests(w, lk, c.deliveryReplies, old(storage), exitRequests)
      {
        assert exitRequests[j..][1..] == exitRequests[j + 1..];
        threw := ProcessExitRequest(lk, c.deliveryReplies, exitRequests[j]);
        if threw {
          return;
        }
      }
      return false;
    }

    method ProcessBatches(batches: seq<Range>, c: CycleAnswers) returns (done: nat)
      requires w.cfg.Valid() && c.finalized.FinalizedAt?
      modifies this`storage
      ensures (storage, done) == AddBatches(w, c, old(storage), batches)
    {
      for i := 0 to |batches|
        invariant AddBatches(w, c, old(storage), batches) == Later(i, AddBatches(w, c, storage, batches[i..]))
      {
        AddBatchesStep(w, c, storage, batches, i);
        var exitRequests := c.requests(batches[i]);
        if exitRequests.Fails? {
          return i;
        }
        var threw := ProcessExitRequests(c, Lookup(c.finalized.registry, c.threshold), exitRequests.value);
        if threw {
          return i;
        }
      }
      return |batches|;
    }

    method ProcessValidator(e: Tracked, i: nat, x: Examination) returns (r: Answer<Option<Witness>>)
      modifies this`reported
      ensures r.Fails? <==> Judge(w.cfg, x, i, e).Threw?
      ensures r == Reply(Some(WitnessFor(e))) <==> Judge(w.cfg, x, i, e).Late?
      ensures r.Reply? && r.value.Some? ==> r.value.value == WitnessFor(e)
      ensures reported == old(reported) - if Judge(w.cfg, x, i, e).NoPenalty? then {e.validator.pubkey} else {}
    {
      var index := e.validator.validatorIndex;
      if index >= |x.view| {
        return Fails;
      }
      var exitEpoch := x.view[index].exitEpoch;
      if exitEpoch.Some? && exitEpoch.value < e.exitDeadlineEpoch {
        return Reply(None);
      }
      var eligible := w.cfg.EligibleExitRequestTimestamp(x.delivered, e.activationEpoch);
      if x.proofTimestamp < eligible {
        return Reply(None);
      }
      var secondsSinceExitIsEligible := x.proofTimestamp - eligible;
      var wasReported := e.validator.pubkey in reported;
      var isPenaltyApplicable := x.penalty(i, e.validator, x.proofTimestamp, secondsSinceExitIsEligible);
      if isPenaltyApplicable.Fails? {
        return Fails;
      }
      if !isPenaltyApplicable.value {
        if wasReported {
          reported := reported - {e.validator.pubkey};
        }
        return Reply(None);
      }
      return Reply(Some(WitnessFor(e)));
    }

    method ProcessValidatorGroup(es: seq<Tracked>, a: SlotAnswers, proofTimestamp: int, delivered: int)
      returns (r: Answer<seq<Witness>>)
      modifies this`reported
      ensures a.state.Unavailable? ==> r == Fails && reported == old(reported)
      ensures a.state.Corrupt? ==> r == Reply([]) && reported == old(reported)
      ensures a.state.Loaded? ==>
                var x := Examination(a.state.view, proofTimestamp, delivered, a.penalty);
                var n := StopAt(w.cfg, x, es, 0);
                && r == (if n < |es| then Fails else Reply(Witnesses(w.cfg, x, es, n)))
                && reported == old(reported) - NoPenaltyKeys(w.cfg, x, es, n)
    {
      if a.state.Unavailable? {
        return Fails;
      }
      if a.state.Corrupt? {
        return Reply([]);
      }
      var x := Examination(a.state.view, proofTimestamp, delivered, a.penalty);
      var validatorWitnesses := [];
      for i := 0 to |es|
        invariant StopAt(w.cfg, x, es, 0) == StopAt(w.cfg, x, es, i)
        invariant validatorWitnesses == Witnesses(w.cfg, x, es, i)
        invariant reported == old(reported) - NoPenaltyKeys(w.cfg, x, es, i)
      {
        var wit := ProcessValidator(es[i], i, x);
        if wit.Fails? {
          return Fails;
        }
        if wit.value.Some? {
          validatorWitnesses := validatorWitnesses + [wit.value.value];
        }
      }
      return Reply(validatorWitnesses);
    }

    /** One call of the executor; the keys of its witnesses are reported when it returns. */
    method Execute(s: Submission)
      modifies this`reported, this`submitted
      ensures submitted == old(submitted) + [s]
      ensures reported == old(reported) + if s.returned then KeysOf(s.witnesses) else {}
    {
      submitted := submitted + [s];
      if s.returned {
        reported := reported + set k | 0 <= k < |s.witnesses| :: s.witnesses[k].pubkey;
      }
    }

    /** Execute as a step of a loop that has made the calls `done` since the state was `was`. */
    method ExecuteBatch(h: Header, batches: seq<seq<Witness>>, i: nat, a: SlotAnswers, ghost done: seq<Submission>,
                        ghost was: (seq<Submission>, set<string>)) returns (returned: bool, ghost more: seq<Submission>)
      requires i < |batches| && submitted == was.0 + done && reported == was.1 + ReturnedKeys(done)
      modifies this`reported, this`submitted
      ensures returned == a.execute(i) && more == done + [SubmissionOf(a, h, batches, i)]
      ensures submitted == was.0 + more && reported == was.1 + ReturnedKeys(more)
    {
      ReturnedKeysAppend(done, SubmissionOf(a, h, batches, i));
      returned := a.execute(i);
      Execute(SubmissionOf(a, h, batches, i));
      more := done + [SubmissionOf(a, h, batches, i)];
    }

    method ProcessHistoricalSlot(witnesses: seq<Witness>, h: Header, a: SlotAnswers) returns (threw: bool)
      requires batchSize >= 1 && h.historical
      modifies this`reported, this`submitted
      ensures var (submissions, stopped) := Submit(a, h, witnesses, batchSize);
              && threw == stopped && submitted == old(submitted) + submissions
              && reported == old(reported) + ReturnedKeys(submissions)
    {
      var batches := CreateValidatorBatches(witnesses, batchSize);
      ghost var done, all := [], SubmitFrom(a, h, batches, 0);
      AfterEnds([], all);
      for i := 0 to |batches|
        invariant After(done, SubmitFrom(a, h, batches, i)) == all
        invariant submitted == old(submitted) + done && reported == old(reported) + ReturnedKeys(done)
      {
        SubmitStep(a, h, batches, i, done);
        var summary := a.summary(i);
        if summary.SummaryThrew? {
          return true;
        }
        if summary.Ready? {
          var returned;
          returned, done := ExecuteBatch(h, batches, i, a, done, (old(submitted), old(reported)));
          if !returned {
            return true;
          }
        }
      }
      AfterEnds(done, all);
      return false;
    }

    method ProcessCurrentSlot(witnesses: seq<Witness>, h: Header, a: SlotAnswers) returns (threw: bool)
      requires batchSize >= 1 && !h.historical
      modifies this`reported, this`submitted
      ensures var (submissions, stopped) := Submit(a, h, witnesses, batchSize);
              && threw == stopped && submitted == old(submitted) + submissions
              && reported == old(reported) + ReturnedKeys(submissions)
    {
      var batches := CreateValidatorBatches(witnesses, batchSize);
      ghost var done, all := [], SubmitFrom(a, h, batches, 0);
      AfterEnds([], all);
      for i := 0 to |batches|
        invariant After(done, SubmitFrom(a, h, batches, i)) == all
        invariant submitted == old(submitted) + done && reported == old(reported) + ReturnedKeys(done)
      {
        SubmitStep(a, h, batches, i, done);
        var returned;
        returned, done := ExecuteBatch(h, batches, i, a, done, (old(submitted), old(reported)));
        if !returned {
          return true;
        }
      }
      AfterEnds(done, all);
      return false;
    }

    method CombineGroups(gs: seq<Group>) returns (allValidators: seq<Tracked>, exitRequest: Option<ExitRequest>)
      ensures allValidators == Flatten(gs)
      ensures exitRequest == if gs == [] then None else Some(gs[0].exitRequest)
    {
      allValidators, exitRequest := [], None;
      for i := 0 to |gs|
        invariant allValidators + Flatten(gs[i..]) == Flatten(gs)
        invariant exitRequest == if i == 0 then None else Some(gs[0].exitRequest)
      {
        assert gs[i..][1..] == gs[i + 1..];
        allValidators := allValidators + gs[i].validators;
        if exitRequest.None? {
          exitRequest := Some(gs[i].exitRequest);
        }
      }
    }

    /** `slot` is the slot after the deadline slot. */
    method ProcessDeadlineSlot(slot: int, gs: seq<Group>, a: SlotAnswers) returns (threw: bool)
      requires batchSize >= 1 && gs != []
      modifies this`reported, this`submitted
      ensures var run := RunSlot(w, batchSize, slot, gs, a);
              && threw == run.threw && reported == (old(reported) - run.cleared) + run.Sent()
              && submitted == old(submitted) + run.submissions
    {
      var allValidators, exitRequest := CombineGroups(gs);
      if !a.deliveryReplies {
        return true;
      }
      var delivered := w.delivered(exitRequest.value.hash);
      if a.head.Fails? {
        return true;
      }
      var isOldSlot := w.cfg.IsSlotOld(slot, a.head.value);
      var actual := FindNextAvailableSlot(a.headers, slot, MAX_ATTEMPTS);
      if actual.Fails? {
        return true;
      }
      var proofTimestamp := w.cfg.SlotToTimestamp(actual.value);
      var witnesses := ProcessValidatorGroup(allValidators, a, proofTimestamp, delivered);
      if witnesses.Fails? {
        return true;
      }
      if witnesses.value == [] {
        return false;
      }
      var h := Header(isOldSlot, actual.value, exitRequest.value);
      if isOldSlot {
        threw := ProcessHistoricalSlot(witnesses.value, h, a);
      } else {
        threw := ProcessCurrentSlot(witnesses.value, h, a);
      }
    }

    /** The eligible slots in an arbitrary order; the slots are then processed, and cleaned up if none throws. */
    method ProcessEligibleValidators(currentSlot: int, slots: int -> SlotAnswers) returns (order: seq<int>, threw: bool)
      requires Valid()
      modifies this
      ensures Valid()
      ensures forall d :: d in order <==> d in old(storage) && d <= currentSlot
      ensures forall i, j :: 0 <= i < j < |order| ==> order[i] != order[j]
      ensures forall d :: d in old(storage) ==> old(storage)[d] != []
      ensures var runs := RunsFor(w, batchSize, old(storage), slots, order);
              (reported, threw) == ApplyRuns(runs, old(reported)) && submitted == old(submitted) + AllSubmissions(runs)
      ensures AllExplained(old(storage), currentSlot, submitted[|old(submitted)|..])
      ensures threw <==> SlotsThrow(w, batchSize, old(storage), slots, currentSlot)
      ensures threw ==> storage == old(storage)
      ensures !threw ==> CleanedUpTo(old(storage), storage, reported, currentSlot)
    {
      order := Enumerate(set d | d in storage && d <= currentSlot);
      ghost var runs := RunsFor(w, batchSize, storage, slots, order);
      forall i, p | 0 <= i < |runs| && p in runs[i].Sent() ensures Stored(storage, p) {
        RunsReportStored(w, batchSize, storage, slots, order, i, p);
      }
      ApplyRunsKeepsOk(w, storage, runs, reported);
      forall i | 0 <= i < |order|
        ensures order[i] in storage && order[i] <= currentSlot
        ensures ExplainedRun(storage[order[i]], runs[i])
      {
        assert order[i] in order;
        StoredExplain(w, batchSize, storage, slots, order[i]);
        RunExplainedAt(w, batchSize, storage, slots, order, i);
      }
      RunsExplained(storage, currentSlot, order, runs);
      RunsThrowExact(w, batchSize, storage, slots, currentSlot, order, reported);
      threw := ProcessSlots(order, slots);
      if !threw {
        CleanupProcessedEntries(order, currentSlot);
      }
      assert submitted[|old(submitted)|..] == AllSubmissions(runs);
    }

    method ProcessSlots(order: seq<int>, slots: int -> SlotAnswers) returns (threw: bool)
      requires batchSize >= 1 && forall d :: d in order ==> d in storage && storage[d] != []
      modifies this`reported, this`submitted
      ensures var runs := RunsFor(w, batchSize, storage, slots, order);
              (reported, threw) == ApplyRuns(runs, old(reported)) && submitted == old(submitted) + AllSubmissions(runs)
    {
      ghost var runs := RunsFor(w, batchSize, storage, slots, order);
      for i := 0 to |order|
        invariant ApplyRuns(runs[i..], reported) == ApplyRuns(runs, old(reported))
        invariant submitted + AllSubmissions(runs[i..]) == old(submitted) + AllSubmissions(runs)
      {
        RunAt(w, batchSize, storage, slots, order, i);
        ApplyRunsStep(runs, i, reported);
        AppendAssociates(submitted, runs[i].submissions, AllSubmissions(runs[i + 1..]));
        threw := ProcessDeadlineSlot(order[i] + 1, storage[order[i]], slots(order[i]));
        if threw {
          return;
        }
      }
      threw := false;
    }

    method CleanupSlot(d: int)
      requires Valid() && d in storage
      modifies this`storage
      ensures Valid() && storage == CleanStorage(old(storage), d, reported)
    {
      var gs := storage[d];
      CleanStorageKeepsOk(w, storage, d, reported);
      RemainingMeansGroups(gs, reported);
      var allValidators, _ := CombineGroups(gs);
      var remainingValidators := Keep(allValidators, reported);
      if remainingValidators == [] {
        storage := storage - {d};
      } else {
        var updatedGroupDataArray := Redistribute(gs, remainingValidators);
        if updatedGroupDataArray != [] {
          storage := storage[d := updatedGroupDataArray];
        } else {
          assert false;
        }
      }
    }

    method CleanupProcessedEntries(order: seq<int>, ghost currentSlot: int)
      requires Valid()
      requires forall d :: d in order <==> d in storage && d <= currentSlot
      requires forall i, j :: 0 <= i < j < |order| ==> order[i] != order[j]
      modifies this`storage
      ensures Valid()
      ensures CleanedUpTo(old(storage), storage, reported, currentSlot)
    {
      for i := 0 to |order|
        invariant Valid()
        invariant forall d :: d !in order[..i] ==>
                    (d in storage <==> d in old(storage)) && (d in storage ==> storage[d] == old(storage)[d])
        invariant forall d :: d in order[..i] ==>
                    if CleanSlot(old(storage)[d], reported) == [] then d !in storage
                    else d in storage && storage[d] == CleanSlot(old(storage)[d], reported)
      {
        assert order[..i + 1] == order[..i] + [order[i]];
        assert order[i] !in order[..i];
        CleanupSlot(order[i]);
      }
      assert order[..|order|] == order;
    }

    /**
      Start-up: accumulate the look-back range of blocks up to the head without processing; whatever
      throws is logged and swallowed. The ranges completed hold exactly the blocks of `start`.
     */
    method InitializeStorage(head: Answer<int>, lookbackDays: nat, c: CycleAnswers)
      returns (completed: seq<Range>, ghost start: Range, ghost batches: seq<Range>)
      requires Valid()
      modifies this`storage
      ensures Valid() && Extends(old(storage), storage)
      ensures head.Fails? ==> completed == [] && storage == old(storage)
      ensures head.Reply? ==>
                && start.from == StartBlock(lookbackDays, head.value) && BlockRanges(batches, start.from, head.value)
                && if c.finalized.FinalizedAt? then
                     var (after, done) := AddBatches(w, c, old(storage), batches);
                     && storage == after && completed == batches[..done]
                     && (done == |batches| ==> start.to == head.value)
                   else storage == old(storage) && completed == []
      ensures forall b :: Covered(completed, b) <==> start.from <= b <= start.to
      ensures completed == [] ==> start.to < start.from
    {
      completed, start, batches := [], Range(0, -1), [];
      if head.Fails? {
        return;
      }
      var fromBlock := Max(1, head.value - lookbackDays * BLOCKS_PER_DAY);
      start := Range(fromBlock, fromBlock - 1);
      var ranges := CreateBatches(fromBlock, head.value, BLOCK_BATCH_SIZE);
      batches := ranges;
      if c.finalized.FinalizedAt? {
        AddBatchesKeepsOk(w, c, storage, reported, ranges);
        AddBatchesExtends(w, c, storage, ranges);
        var done := ProcessBatches(ranges, c);
        completed := ranges[..done];
        BatchesCover(ranges, fromBlock, head.value, done);
        start := Range(fromBlock, ReachOf(completed, fromBlock));
      }
    }

    /**
      One cycle's work on a block range. `scanned` are the ranges whose requests were all
      accumulated, `order` the eligible slots in the order in which they were taken.
     */
    method HandleBlock(fromBlock: int, toBlock: int, c: CycleAnswers)
      returns (outcome: Outcome, order: seq<int>, scanned: seq<Range>, ghost batches: seq<Range>)
      requires Valid()
      modifies this
      ensures Valid()
      ensures BlockRanges(batches, fromBlock, toBlock) && scanned <= batches
      ensures forall b :: Covered(scanned, b) <==> fromBlock <= b <= ReachOf(scanned, fromBlock)
      ensures outcome == CycleDone ==> ReachOf(scanned, fromBlock) == toBlock
      ensures fromBlock <= toBlock ==> ReachOf(scanned, fromBlock) <= toBlock
      ensures outcome == CycleSkipped <==> c.finalized.FinalizedCorrupt?
      ensures outcome == CycleThrew <==> CycleThrows(w, batchSize, old(storage), c, fromBlock, toBlock)
      ensures !c.finalized.FinalizedAt? ==>
                scanned == [] && storage == old(storage) && reported == old(reported) && submitted == old(submitted)
      ensures outcome == CycleThrew ==> Extends(old(storage), storage)
      ensures c.finalized.FinalizedAt? ==>
                var (accumulated, done) := AddBatches(w, c, old(storage), batches);
                && scanned == batches[..done] && Extends(old(storage), accumulated)
                && (forall d :: d in accumulated ==> accumulated[d] != [])
                && (done < |batches| ==>
                      outcome == CycleThrew && storage == accumulated && reported == old(reported)
                      && submitted == old(submitted))
                && (done == |batches| ==>
                      && (forall d :: d in order <==> d in accumulated && d <= c.finalized.slot)
                      && (forall i, j :: 0 <= i < j < |order| ==> order[i] != order[j])
                      && var runs := RunsFor(w, batchSize, accumulated, c.slots, order);
                      && (reported, outcome == CycleThrew) == ApplyRuns(runs, old(reported))
                      && submitted == old(submitted) + AllSubmissions(runs)
                      && AllExplained(accumulated, c.finalized.slot, submitted[|old(submitted)|..])
                      && (outcome == CycleThrew ==> storage == accumulated)
                      && (outcome == CycleDone ==> CleanedUpTo(accumulated, storage, reported, c.finalized.slot)))
    {
      order, scanned := [], [];
      var ranges := CreateBatches(fromBlock, toBlock, BLOCK_BATCH_SIZE);
      batches := ranges;
      match c.finalized {
        case FinalizedUnavailable => outcome := CycleThrew;
        case FinalizedCorrupt => outcome := CycleSkipped;
        case FinalizedAt(currentSlot, registry) =>
          AddBatchesKeepsOk(w, c, storage, reported, ranges);
          AddBatchesExtends(w, c, storage, ranges);
          CycleThrowsWith(w, batchSize, storage, c, fromBlock, toBlock, ranges);
          CompletedExact(w, c, storage, ranges);
          var done := ProcessBatches(ranges, c);
          scanned := ranges[..done];
          BatchesCover(ranges, fromBlock, toBlock, done);
          if done < |ranges| {
            outcome := CycleThrew;
          } else {
            var threw;
            order, threw := ProcessEligibleValidators(currentSlot, c.slots);
            outcome := if threw then CycleThrew else CycleDone;
          }
      }
    }
  }
}
