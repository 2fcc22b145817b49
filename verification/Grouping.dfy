/** Grouping the validators of an exit request by deadline slot, and accumulating requests. */
module Grouping {
  import opened Wrappers
  import opened Selection
  import Arithmetic
  import opened ExitData
  import opened ValidatorStorage
  import opened StorageInvariant
  import opened SlotProcessing

  /** The finalized registry, and the exit deadline threshold each module contract gives (or fails to). */
  datatype Lookup = Lookup(registry: seq<ValidatorRecord>, threshold: Entry -> Answer<nat>)

  /** The deadline slot of one decoded entry, with what is stored for it. */
  function Place(w: World, lk: Lookup, request: ExitRequest, entry: Entry): Answer<(int, Tracked)>
    requires w.cfg.Valid()
  {
    if entry.validatorIndex >= |lk.registry| then Fails
    else match lk.threshold(entry)
      case Fails => Fails
      case Reply(threshold) =>
        var activationEpoch := lk.registry[entry.validatorIndex].activationEpoch;
        var eligible := w.cfg.EligibleExitRequestTimestamp(w.delivered(request.hash), activationEpoch);
        var slot := w.cfg.SlotFromExitDeadline(eligible + threshold);
        Reply((slot, Tracked(entry, activationEpoch, w.cfg.SlotToEpoch(slot))))
  }

  predicate Placeable(w: World, lk: Lookup, request: ExitRequest, entries: seq<Entry>)
    requires w.cfg.Valid()
  {
    forall k :: 0 <= k < |entries| ==> Place(w, lk, request, entries[k]).Reply?
  }

  function Placed(w: World, lk: Lookup, request: ExitRequest, entries: seq<Entry>): seq<(int, Tracked)>
    requires w.cfg.Valid() && Placeable(w, lk, request, entries)
  {
    seq(|entries|, k requires 0 <= k < |entries| => Place(w, lk, request, entries[k]).value)
  }

  /** The validators placed in slot d, in order. */
  function At(placed: seq<(int, Tracked)>, d: int): seq<Tracked> {
    if placed == [] then []
    else
      var last := placed[|placed| - 1];
      At(placed[..|placed| - 1], d) + (if last.0 == d then [last.1] else [])
  }

  /** One group per slot that occurs, holding the validators placed there. */
  function GroupMap(request: ExitRequest, placed: seq<(int, Tracked)>): map<int, Group> {
    map d | d in (set k | 0 <= k < |placed| :: placed[k].0) :: Group(request, At(placed, d))
  }

  function Grouped(w: World, lk: Lookup, request: ExitRequest, entries: seq<Entry>): Answer<map<int, Group>>
    requires w.cfg.Valid()
  {
    if Placeable(w, lk, request, entries) then Reply(GroupMap(request, Placed(w, lk, request, entries))) else Fails
  }

  lemma {:induction false} AtMember(placed: seq<(int, Tracked)>, d: int, e: Tracked)
    ensures e in At(placed, d) <==> exists k :: 0 <= k < |placed| && placed[k] == (d, e)
  {
    if placed != [] {
      AtMember(placed[..|placed| - 1], d, e);
    }
  }

  lemma {:induction false} AtStep(placed: seq<(int, Tracked)>, p: (int, Tracked), d: int)
    ensures At(placed + [p], d) == At(placed, d) + (if p.0 == d then [p.1] else [])
  {
    assert (placed + [p])[..|placed|] == placed;
  }

  lemma {:induction false} GroupMapKeys(request: ExitRequest, placed: seq<(int, Tracked)>, d: int)
    ensures d in GroupMap(request, placed) <==> At(placed, d) != []
  {
    if At(placed, d) != [] {
      AtMember(placed, d, At(placed, d)[0]);
    }
    if k :| 0 <= k < |placed| && placed[k].0 == d {
      AtMember(placed, d, placed[k].1);
    }
  }

  lemma GroupMapStep(request: ExitRequest, placed: seq<(int, Tracked)>, d: int, e: Tracked)
    ensures var before, after := GroupMap(request, placed), GroupMap(request, placed + [(d, e)]);
            after == before[d := Group(request, (if d in before then before[d].validators else []) + [e])]
  {
    var before, after := GroupMap(request, placed), GroupMap(request, placed + [(d, e)]);
    var expected := before[d := Group(request, (if d in before then before[d].validators else []) + [e])];
    forall d' ensures d' in after <==> d' in expected {
      GroupMapKeys(request, placed, d');
      GroupMapKeys(request, placed + [(d, e)], d');
      AtStep(placed, (d, e), d');
    }
    forall d' | d' in after ensures after[d'] == expected[d'] {
      GroupMapKeys(request, placed, d');
      AtStep(placed, (d, e), d');
    }
  }

  lemma PlacedStep(w: World, lk: Lookup, request: ExitRequest, entries: seq<Entry>, i: nat)
    requires w.cfg.Valid() && i < |entries| && Placeable(w, lk, request, entries[..i])
    requires Place(w, lk, request, entries[i]).Reply?
    ensures Placeable(w, lk, request, entries[..i + 1])
    ensures Placed(w, lk, request, entries[..i + 1]) ==
            Placed(w, lk, request, entries[..i]) + [Place(w, lk, request, entries[i]).value]
  {
    assert entries[..i + 1] == entries[..i] + [entries[i]];
  }

  method PlaceValidator(w: World, lk: Lookup, request: ExitRequest, validator: Entry)
      returns (r: Answer<(int, Tracked)>)
    requires w.cfg.Valid()
    ensures r == Place(w, lk, request, validator)
  {
    if validator.validatorIndex >= |lk.registry| {
      return Fails;
    }
    var activationEpoch := lk.registry[validator.validatorIndex].activationEpoch;
    var eligible := w.cfg.EligibleExitRequestTimestamp(w.delivered(request.hash), activationEpoch);
    var threshold := lk.threshold(validator);
    if threshold.Fails? {
      return Fails;
    }
    var exitDeadlineSlot := w.cfg.SlotFromExitDeadline(eligible + threshold.value);
    return Reply((exitDeadlineSlot, Tracked(validator, activationEpoch, w.cfg.SlotToEpoch(exitDeadlineSlot))));
  }

  method GroupValidatorsByDeadlineSlot(w: World, lk: Lookup, request: ExitRequest, entries: seq<Entry>)
    returns (r: Answer<map<int, Group>>)
    requires w.cfg.Valid()
    ensures r == Grouped(w, lk, request, entries)
  {
    var validatorsByDeadlineSlot: map<int, Group> := map[];
    for i := 0 to |entries|
      invariant Placeable(w, lk, request, entries[..i])
      invariant validatorsByDeadlineSlot == GroupMap(request, Placed(w, lk, request, entries[..i]))
    {
      var place := PlaceValidator(w, lk, request, entries[i]);
      if place.Fails? {
        return Fails;
      }
      PlacedStep(w, lk, request, entries, i);
      var (slot, tracked) := place.value;
      GroupMapStep(request, Placed(w, lk, request, entries[..i]), slot, tracked);
      if slot !in validatorsByDeadlineSlot {
        validatorsByDeadlineSlot := validatorsByDeadlineSlot[slot := Group(request, [])];
      }
      validatorsByDeadlineSlot :=
        validatorsByDeadlineSlot[slot := Group(request, validatorsByDeadlineSlot[slot].validators + [tracked])];
    }
    assert entries[..|entries|] == entries;
    return Reply(validatorsByDeadlineSlot);
  }

  /** The entry cannot be placed: its validator has no record, or its module's threshold cannot be had. */
  ghost predicate Unplaceable(lk: Lookup, entry: Entry) {
    entry.validatorIndex >= |lk.registry| || lk.threshold(entry).Fails?
  }

  /**
    The entry belongs into slot d as e: with its validator's activation epoch, the slot that holds its
    eligible time plus its module's threshold, and that slot's epoch.
   */
  ghost predicate BelongsAs(w: World, lk: Lookup, request: ExitRequest, entry: Entry, d: int, e: Tracked)
    requires w.cfg.Valid()
  {
    && !Unplaceable(lk, entry)
    && e.validator == entry && e.activationEpoch == lk.registry[entry.validatorIndex].activationEpoch
    && DeadlineIn(w.cfg, d, w.delivered(request.hash), e.activationEpoch, lk.threshold(entry).value)
    && e.exitDeadlineEpoch == w.cfg.SlotToEpoch(d)
  }

  lemma PlaceExact(w: World, lk: Lookup, request: ExitRequest, entry: Entry)
    requires w.cfg.Valid()
    ensures Place(w, lk, request, entry).Fails? <==> Unplaceable(lk, entry)
    ensures forall d, e :: Place(w, lk, request, entry) == Reply((d, e)) <==> BelongsAs(w, lk, request, entry, d, e)
  {
  }

  /**
    Grouping throws exactly when some entry cannot be placed. Otherwise a validator is in a slot's
    group exactly when some entry belongs into the slot as it.
   */
  lemma GroupedExact(w: World, lk: Lookup, request: ExitRequest, entries: seq<Entry>)
    requires w.cfg.Valid()
    ensures Grouped(w, lk, request, entries).Fails? <==> exists k :: 0 <= k < |entries| && Unplaceable(lk, entries[k])
    ensures Grouped(w, lk, request, entries).Reply? ==>
              forall d, e :: InGroup(Grouped(w, lk, request, entries).value, d, e) <==>
                             exists k :: 0 <= k < |entries| && BelongsAs(w, lk, request, entries[k], d, e)
  {
    forall k | 0 <= k < |entries| ensures Place(w, lk, request, entries[k]).Fails? <==> Unplaceable(lk, entries[k]) {
      PlaceExact(w, lk, request, entries[k]);
    }
    if Placeable(w, lk, request, entries) {
      forall d, e
        ensures InGroup(Grouped(w, lk, request, entries).value, d, e) <==>
                exists k :: 0 <= k < |entries| && BelongsAs(w, lk, request, entries[k], d, e)
      {
        GroupMember(w, lk, request, entries, d, e);
      }
    }
  }

  ghost predicate InGroup(groups: map<int, Group>, d: int, e: Tracked) {
    d in groups && e in groups[d].validators
  }

  lemma GroupMember(w: World, lk: Lookup, request: ExitRequest, entries: seq<Entry>, d: int, e: Tracked)
    requires w.cfg.Valid() && Placeable(w, lk, request, entries)
    ensures InGroup(GroupMap(request, Placed(w, lk, request, entries)), d, e) <==>
            exists k :: 0 <= k < |entries| && BelongsAs(w, lk, request, entries[k], d, e)
  {
    var placed := Placed(w, lk, request, entries);
    AtMember(placed, d, e);
    forall k | 0 <= k < |entries| ensures placed[k] == (d, e) <==> BelongsAs(w, lk, request, entries[k], d, e) {
      PlaceExact(w, lk, request, entries[k]);
    }
    if k :| 0 <= k < |entries| && BelongsAs(w, lk, request, entries[k], d, e) {
      assert placed[k] == (d, e);
    }
  }

  lemma {:induction false} AtInOrder(placed: seq<(int, Tracked)>, d: int) returns (ps: seq<nat>)
    ensures Positions(ps, |placed|) && forall k :: 0 <= k < |placed| ==> (k in ps <==> placed[k].0 == d)
    ensures |At(placed, d)| == |ps| && forall j :: 0 <= j < |ps| ==> At(placed, d)[j] == placed[ps[j]].1
  {
    ps := [];
    if placed != [] {
      var n := |placed| - 1;
      ps := AtInOrder(placed[..n], d);
      PositionsAppend(ps, n);
      if placed[n].0 == d {
        ps := ps + [n];
      }
    }
  }

  /** A slot's group carries the request, and its entries in their order, each once. */
  lemma GroupInOrder(w: World, lk: Lookup, request: ExitRequest, entries: seq<Entry>, d: int) returns (ps: seq<nat>)
    requires w.cfg.Valid() && Grouped(w, lk, request, entries).Reply? && d in Grouped(w, lk, request, entries).value
    ensures var g := Grouped(w, lk, request, entries).value[d];
            && g.exitRequest == request && |g.validators| == |ps| && Positions(ps, |entries|)
            && forall j :: 0 <= j < |ps| ==> BelongsAs(w, lk, request, entries[ps[j]], d, g.validators[j])
    ensures forall k, e :: 0 <= k < |entries| && BelongsAs(w, lk, request, entries[k], d, e) ==> k in ps
  {
    var placed := Placed(w, lk, request, entries);
    ps := AtInOrder(placed, d);
    forall k | 0 <= k < |entries|
      ensures forall e :: placed[k] == (d, e) <==> BelongsAs(w, lk, request, entries[k], d, e)
    {
      PlaceExact(w, lk, request, entries[k]);
    }
    forall j | 0 <= j < |ps|
      ensures BelongsAs(w, lk, request, entries[ps[j]], d, Grouped(w, lk, request, entries).value[d].validators[j])
    {
      assert ps[j] in ps && placed[ps[j]] == (d, At(placed, d)[j]);
    }
  }

  /** The groups made from a request's own decoded data meet the storage invariant. */
  lemma GroupedOk(w: World, lk: Lookup, request: ExitRequest, d: int)
    requires w.cfg.Valid() && Decode(request.data).Some? && Placeable(w, lk, request, Decode(request.data).value)
    requires d in GroupMap(request, Placed(w, lk, request, Decode(request.data).value))
    ensures SlotOk(w, d, [GroupMap(request, Placed(w, lk, request, Decode(request.data).value))[d]])
  {
    var entries := Decode(request.data).value;
    var placed := Placed(w, lk, request, entries);
    forall k | 0 <= k < |placed|
      ensures Belongs(w, placed[k].0, request, placed[k].1)
      ensures w.delivered(request.hash) < w.cfg.SlotToTimestamp(placed[k].0 + 1)
    {
      PlacedBelongs(w, lk, request, k);
    }
    PlacedGroupOk(w, request, placed, d);
  }

  lemma PlacedGroupOk(w: World, request: ExitRequest, placed: seq<(int, Tracked)>, d: int)
    requires w.cfg.Valid() && d in GroupMap(request, placed)
    requires forall k :: 0 <= k < |placed| ==>
               Belongs(w, placed[k].0, request, placed[k].1)
               && w.delivered(request.hash) < w.cfg.SlotToTimestamp(placed[k].0 + 1)
    ensures SlotOk(w, d, [GroupMap(request, placed)[d]])
  {
    var g := GroupMap(request, placed)[d];
    var gs := [g];
    var k0 :| 0 <= k0 < |placed| && placed[k0].0 == d;
    AtMember(placed, d, placed[k0].1);
    assert Flatten(gs) == g.validators + [];
    forall e | e in Flatten(gs) ensures HasOrigin(w, d, gs, e) {
      AtMember(placed, d, e);
      assert e in gs[0].validators && Belongs(w, d, gs[0].exitRequest, e);
    }
  }

  lemma PlacedBelongs(w: World, lk: Lookup, request: ExitRequest, k: nat)
    requires w.cfg.Valid() && Decode(request.data).Some?
    requires k < |Decode(request.data).value|
    requires Place(w, lk, request, Decode(request.data).value[k]).Reply?
    ensures var (d, e) := Place(w, lk, request, Decode(request.data).value[k]).value;
            Belongs(w, d, request, e) && w.delivered(request.hash) < w.cfg.SlotToTimestamp(d + 1)
  {
    var entry := Decode(request.data).value[k];
    EntriesAt(request.data, EntryCount(request.data), k);
    var (d, e) := Place(w, lk, request, entry).value;
    var threshold := lk.threshold(entry).value;
    assert DeadlineIn(w.cfg, d, w.delivered(request.hash), e.activationEpoch, threshold);
    DeadlineBounds(w.cfg, d, w.delivered(request.hash), e.activationEpoch, threshold);
  }

  // ---------- accumulating requests ----------

  /** Storage after one request: decoded, timed, grouped and added as a whole, or untouched when any of these throws. */
  function AddRequest(w: World, lk: Lookup, deliveryReplies: string -> bool, storage: Storage,
                      request: ExitRequest): Answer<Storage>
    requires w.cfg.Valid()
  {
    var entries := Decode(request.data);
    if entries.None? || !deliveryReplies(request.hash) then Fails
    else match Grouped(w, lk, request, entries.value)
      case Fails => Fails
      case Reply(added) => Reply(AddGroups(storage, added))
  }

  /** The request's data is cut short, its delivery time cannot be had, or an entry of it cannot be placed. */
  ghost predicate RequestThrows(lk: Lookup, deliveryReplies: string -> bool, request: ExitRequest) {
    || 1 <= |request.data| % 64 <= 8 || !deliveryReplies(request.hash)
    || exists k :: 0 <= k < |Decode(request.data).value| && Unplaceable(lk, Decode(request.data).value[k])
  }

  lemma AddRequestThrows(w: World, lk: Lookup, deliveryReplies: string -> bool, storage: Storage, request: ExitRequest)
    requires w.cfg.Valid()
    ensures AddRequest(w, lk, deliveryReplies, storage, request).Fails? <==> RequestThrows(lk, deliveryReplies, request)
  {
    DecodeExact(request.data);
    if Decode(request.data).Some? {
      GroupedExact(w, lk, request, Decode(request.data).value);
    }
  }

  lemma AddRequestKeepsOk(w: World, lk: Lookup, deliveryReplies: string -> bool, storage: Storage,
                          reported: set<string>,
                          request: ExitRequest)
    requires w.cfg.Valid() && Ok(w, storage, reported)
    requires AddRequest(w, lk, deliveryReplies, storage, request).Reply?
    ensures Ok(w, AddRequest(w, lk, deliveryReplies, storage, request).value, reported)
  {
    var added := Grouped(w, lk, request, Decode(request.data).value).value;
    forall d | d in added ensures SlotOk(w, d, [added[d]]) {
      GroupedOk(w, lk, request, d);
    }
    AddGroupsKeepsOk(w, storage, reported, added);
  }

  /** Requests accumulated in order up to the first that throws; whether one did. */
  function AddRequests(w: World, lk: Lookup, deliveryReplies: string -> bool, storage: Storage,
                       requests: seq<ExitRequest>): (Storage, bool)
    requires w.cfg.Valid()
    decreases |requests|
  {
    if requests == [] then (storage, false)
    else match AddRequest(w, lk, deliveryReplies, storage, requests[0])
      case Fails => (storage, true)
      case Reply(after) => AddRequests(w, lk, deliveryReplies, after, requests[1..])
  }

  /** Accumulating throws exactly when one of the requests does. */
  lemma {:induction false} AddRequestsThrow(w: World, lk: Lookup, deliveryReplies: string -> bool, storage: Storage,
                                            requests: seq<ExitRequest>)
    requires w.cfg.Valid()
    ensures AddRequests(w, lk, deliveryReplies, storage, requests).1 <==>
            exists r :: r in requests && RequestThrows(lk, deliveryReplies, r)
    decreases |requests|
  {
    if requests != [] {
      AddRequestThrows(w, lk, deliveryReplies, storage, requests[0]);
      if AddRequest(w, lk, deliveryReplies, storage, requests[0]).Reply? {
        var after := AddRequest(w, lk, deliveryReplies, storage, requests[0]).value;
        AddRequestsThrow(w, lk, deliveryReplies, after, requests[1..]);
      } else {
        assert requests[0] in requests;
      }
    }
  }

  /** A request scanned a second time is stored a second time: each of its slots holds its group twice. */
  lemma {:induction false} RescanStoresTwice(w: World, lk: Lookup, deliveryReplies: string -> bool,
                                             request: ExitRequest,
                                             added: map<int, Group>)
    requires w.cfg.Valid() && Decode(request.data).Some? && deliveryReplies(request.hash)
    requires Grouped(w, lk, request, Decode(request.data).value) == Reply(added)
    ensures AddRequests(w, lk, deliveryReplies, map[], [request, request]) ==
            (map d | d in added :: [added[d], added[d]], false)
  {
    var once := AddGroups(map[], added);
    AddTwoRequests(w, lk, deliveryReplies, map[], once, AddGroups(once, added), request);
    AddedTwice(added);
  }

  lemma SingleGrouped(w: World, lk: Lookup, request: ExitRequest, e: Tracked, d: int)
    requires w.cfg.Valid() && Place(w, lk, request, e.validator) == Reply((d, e))
    ensures Grouped(w, lk, request, [e.validator]) == Reply(map[d := Group(request, [e])])
  {
    var placed := [(d, e)];
    assert Placed(w, lk, request, [e.validator]) == placed;
    assert placed[..0] == [] && At(placed[..0], d) == [];
    assert At(placed, d) == [] + [e] == [e];
    var m := GroupMap(request, placed);
    assert forall d' :: d' in m <==> d' == d by {
      assert placed[0].0 == d;
    }
    assert m == map[d := Group(request, [e])];
  }

  /** A request with one group, added to what is stored. */
  lemma {:induction false} AddOne(w: World, lk: Lookup, deliveryReplies: string -> bool, storage: Storage, g: Group,
                                  d: int)
    requires w.cfg.Valid() && Decode(g.exitRequest.data).Some? && deliveryReplies(g.exitRequest.hash)
    requires Grouped(w, lk, g.exitRequest, Decode(g.exitRequest.data).value) == Reply(map[d := g])
    ensures AddRequests(w, lk, deliveryReplies, storage, [g.exitRequest]) == (AddGroups(storage, map[d := g]), false)
  {
    assert [g.exitRequest][1..] == [];
  }

  /**
    How a later request comes to be first in a slot: the early one's event could not be read at first,
    and a later scan finds it.
   */
  lemma {:induction false} LateRequestStoredFirst(w: World, lk: Lookup, deliveryReplies: string -> bool, d: int,
                                                  first: Tracked,
                                                  second: Tracked, late: string, early: string)
    requires w.cfg.Valid() && InRange(first.validator) && InRange(second.validator)
    requires first.validator.exitDataIndex == second.validator.exitDataIndex == 0
    requires deliveryReplies(late) && deliveryReplies(early)
    requires Place(w, lk, ExitRequest(late, Encode([first.validator])), first.validator) == Reply((d, first))
    requires Place(w, lk, ExitRequest(early, Encode([second.validator])), second.validator) == Reply((d, second))
    ensures var gs := TwoRequests(first, late, second, early);
            && AddRequests(w, lk, deliveryReplies, map[], [gs[0].exitRequest]) == (map[d := [gs[0]]], false)
            && AddRequests(w, lk, deliveryReplies, map[d := [gs[0]]], [gs[1].exitRequest]) == (map[d := gs], false)
  {
    var gs := TwoRequests(first, late, second, early);
    DecodeEncode([first.validator]);
    DecodeEncode([second.validator]);
    SingleGrouped(w, lk, gs[0].exitRequest, first, d);
    SingleGrouped(w, lk, gs[1].exitRequest, second, d);
    AddOne(w, lk, deliveryReplies, map[], gs[0], d);
    AddOne(w, lk, deliveryReplies, map[d := [gs[0]]], gs[1], d);
    AddedInOrder(d, gs[0], gs[1]);
    assert gs == [gs[0], gs[1]];
  }

  lemma AddedInOrder(d: int, a: Group, b: Group)
    ensures AddGroups(map[], map[d := a]) == map[d := [a]]
    ensures AddGroups(map[d := [a]], map[d := b]) == map[d := [a, b]]
  {
    assert [] + [a] == [a] && [a] + [b] == [a, b];
  }

  // ---------- which groups are stored ----------

  ghost predicate InSlot(storage: Storage, d: int, g: Group) {
    d in storage && g in storage[d]
  }

  /** The group that a request puts into slot d. */
  ghost predicate GroupOf(w: World, lk: Lookup, request: ExitRequest, d: int, g: Group)
    requires w.cfg.Valid()
  {
    var entries := Decode(request.data);
    entries.Some? && var m := Grouped(w, lk, request, entries.value); m.Reply? && d in m.value && m.value[d] == g
  }

  lemma AddRequestGroups(w: World, lk: Lookup, deliveryReplies: string -> bool, storage: Storage, request: ExitRequest,
                         d: int, g: Group)
    requires w.cfg.Valid() && AddRequest(w, lk, deliveryReplies, storage, request).Reply?
    ensures InSlot(AddRequest(w, lk, deliveryReplies, storage, request).value, d, g) <==>
            InSlot(storage, d, g) || GroupOf(w, lk, request, d, g)
  {
  }

  /** Without an exception a group is stored exactly when it was before or belongs to one of the requests. */
  lemma {:induction false} AddRequestsGroups(w: World, lk: Lookup, deliveryReplies: string -> bool, storage: Storage,
                                             requests: seq<ExitRequest>, d: int, g: Group)
    requires w.cfg.Valid()
    ensures var (after, threw) := AddRequests(w, lk, deliveryReplies, storage, requests);
            && (InSlot(after, d, g) ==> InSlot(storage, d, g) || exists r :: r in requests && GroupOf(w, lk, r, d, g))
            && (InSlot(storage, d, g) ==> InSlot(after, d, g))
            && (!threw ==> forall r :: r in requests && GroupOf(w, lk, r, d, g) ==> InSlot(after, d, g))
    decreases |requests|
  {
    if requests != [] && AddRequest(w, lk, deliveryReplies, storage, requests[0]).Reply? {
      AddRequestGroups(w, lk, deliveryReplies, storage, requests[0], d, g);
      AddRequestsGroups(w, lk, deliveryReplies, AddRequest(w, lk, deliveryReplies, storage, requests[0]).value,
                        requests[1..], d, g);
    }
  }

  lemma AddedTwice(added: map<int, Group>)
    ensures AddGroups(AddGroups(map[], added), added) == map d | d in added :: [added[d], added[d]]
  {
    var twice := AddGroups(AddGroups(map[], added), added);
    forall d | d in added ensures twice[d] == [added[d], added[d]] {
      assert AddGroups(map[], added)[d] == [] + [added[d]];
    }
  }

  lemma {:induction false} AddTwoRequests(w: World, lk: Lookup, deliveryReplies: string -> bool,
                                          s0: Storage, s1: Storage, s2: Storage, request: ExitRequest)
    requires w.cfg.Valid()
    requires AddRequest(w, lk, deliveryReplies, s0, request) == Reply(s1)
    requires AddRequest(w, lk, deliveryReplies, s1, request) == Reply(s2)
    ensures AddRequests(w, lk, deliveryReplies, s0, [request, request]) == (s2, false)
  {
    var rs := [request, request];
    assert rs[1..] == [request];
    var r := [request];
    assert r[1..] == [];
    assert AddRequests(w, lk, deliveryReplies, s2, r[1..]) == (s2, false);
    assert AddRequests(w, lk, deliveryReplies, s1, r) == (s2, false);
  }

  /**
    A group stored twice holds each of its validators twice; every cleanup doubles the ones that
    stay tracked, without bound.
   */
  lemma {:induction false} TwinGroupsDouble(g: Group, reported: set<string>, e: Tracked, n: nat)
    requires e in g.validators && e.validator.pubkey in reported
    ensures var x := e.validator.validatorIndex;
            var kept := TrackedCount([g, g], reported, x);
            kept >= 2 && TrackedCount(CleanTimes([g, g], reported, n), reported, x) == Arithmetic.Pow(2, n) * kept
  {
    var x, vs := e.validator.validatorIndex, g.validators;
    assert [g][1..] == [] && [g, g][1..] == [g];
    assert Flatten([g]) == vs + [] == vs;
    assert Flatten([g, g]) == vs + vs;
    var k :| 0 <= k < |vs| && vs[k] == e;
    assert HasIndex(vs, x);
    assert Holders([], x) == 0;
    assert Holders([g], x) == 1;
    assert Holders([g, g], x) == 2;
    KeepMember(vs, reported, e);
    var j :| 0 <= j < |Keep(vs, reported)| && Keep(vs, reported)[j] == e;
    CountPositive(Keep(vs, reported), x);
    KeepAppend(vs, vs, reported);
    CountAppend(Keep(vs, reported), Keep(vs, reported), x);
    CleanupGrowth([g, g], reported, x, n);
  }
}
