/** What holds of the storage and the reported set in every reachable state, step by step. */
module StorageInvariant {
  import opened SlotMath
  import opened ExitData
  import opened ValidatorStorage

  /** The fixed surroundings: chain parameters, and the delivery time of each exit request by hash. */
  datatype World = World(cfg: Config, delivered: string -> int)

  /** The entry is where the request's data says, under its own index. */
  ghost predicate Aligned(request: ExitRequest, entry: Entry) {
    var es := Decode(request.data);
    es.Some? && entry.exitDataIndex < |es.value| && es.value[entry.exitDataIndex] == entry
  }

  /** Slot d holds the exit deadline of a validator with this activation, delivery time and threshold. */
  ghost predicate DeadlineIn(c: Config, d: int, delivered: int, activationEpoch: nat, threshold: nat)
    requires c.Valid()
  {
    d == c.SlotFromExitDeadline(c.EligibleExitRequestTimestamp(delivered, activationEpoch) + threshold)
  }

  /** The validator was put into slot d on behalf of this request. */
  ghost predicate Belongs(w: World, d: int, request: ExitRequest, e: Tracked)
    requires w.cfg.Valid()
  {
    && Aligned(request, e.validator)
    && e.exitDeadlineEpoch == w.cfg.SlotToEpoch(d)
    && exists threshold: nat :: DeadlineIn(w.cfg, d, w.delivered(request.hash), e.activationEpoch, threshold)
  }

  /** Some group of the slot holds the validator on behalf of its own request. */
  ghost predicate HasOrigin(w: World, d: int, gs: seq<Group>, e: Tracked)
    requires w.cfg.Valid()
  {
    exists k :: 0 <= k < |gs| && e in gs[k].validators && Belongs(w, d, gs[k].exitRequest, e)
  }

  ghost predicate GroupOk(w: World, d: int, g: Group) {
    g.validators != [] && w.delivered(g.exitRequest.hash) < w.cfg.SlotToTimestamp(d + 1)
  }

  ghost predicate SlotOk(w: World, d: int, gs: seq<Group>)
    requires w.cfg.Valid()
  {
    && gs != []
    && (forall k :: 0 <= k < |gs| ==> GroupOk(w, d, gs[k]))
    && (forall e :: e in Flatten(gs) ==> HasOrigin(w, d, gs, e))
  }

  ghost predicate Stored(storage: Storage, pubkey: string) {
    exists d, e :: d in storage && e in Flatten(storage[d]) && e.validator.pubkey == pubkey
  }

  ghost predicate Ok(w: World, storage: Storage, reported: set<string>)
    requires w.cfg.Valid()
  {
    && (forall d :: d in storage ==> SlotOk(w, d, storage[d]))
    && (forall p :: p in reported ==> Stored(storage, p))
  }

  // ---------- adding ----------

  /** One request's groups appended to the storage, slot by slot. */
  function AddGroups(storage: Storage, added: map<int, Group>): Storage {
    map d | d in storage.Keys + added.Keys ::
      (if d in storage then storage[d] else []) + (if d in added then [added[d]] else [])
  }

  lemma SlotOkAppend(w: World, d: int, gs: seq<Group>, g: Group)
    requires w.cfg.Valid()
    requires (gs == [] || SlotOk(w, d, gs)) && SlotOk(w, d, [g])
    ensures SlotOk(w, d, gs + [g])
  {
    FlattenAppend(gs, [g]);
    forall e | e in Flatten(gs + [g]) ensures HasOrigin(w, d, gs + [g], e) {
      if e in Flatten(gs) {
        var k :| 0 <= k < |gs| && e in gs[k].validators && Belongs(w, d, gs[k].exitRequest, e);
        assert (gs + [g])[k] == gs[k];
      } else {
        assert e in Flatten([g]);
        assert (gs + [g])[|gs|] == g;
      }
    }
    forall k | 0 <= k < |gs + [g]| ensures GroupOk(w, d, (gs + [g])[k]) {
      if k == |gs| {
        assert [g][0] == g;
      }
    }
  }

  lemma AddGroupsKeepsOk(w: World, storage: Storage, reported: set<string>, added: map<int, Group>)
    requires w.cfg.Valid() && Ok(w, storage, reported)
    requires forall d :: d in added ==> SlotOk(w, d, [added[d]])
    ensures Ok(w, AddGroups(storage, added), reported)
  {
    var after := AddGroups(storage, added);
    forall d | d in after ensures SlotOk(w, d, after[d]) {
      if d in added {
        SlotOkAppend(w, d, if d in storage then storage[d] else [], added[d]);
      } else {
        assert after[d] == storage[d];
      }
    }
    forall p | p in reported ensures Stored(after, p) {
      AddGroupsKeepsStored(storage, added, p);
    }
  }

  lemma AddGroupsKeepsStored(storage: Storage, added: map<int, Group>, p: string)
    requires Stored(storage, p)
    ensures Stored(AddGroups(storage, added), p)
  {
    var d, e :| d in storage && e in Flatten(storage[d]) && e.validator.pubkey == p;
    var after := AddGroups(storage, added);
    FlattenAppend(storage[d], if d in added then [added[d]] else []);
    assert d in after && e in Flatten(after[d]);
  }

  // ---------- reporting and clearing ----------

  lemma ReportKeepsOk(w: World, storage: Storage, reported: set<string>, cleared: set<string>, sent: set<string>)
    requires w.cfg.Valid() && Ok(w, storage, reported)
    requires forall p :: p in sent ==> Stored(storage, p)
    ensures Ok(w, storage, (reported - cleared) + sent)
  {
  }

  // ---------- cleanup ----------

  /** Storage after the cleanup of one slot. */
  function CleanStorage(storage: Storage, d: int, reported: set<string>): Storage {
    if d !in storage then storage
    else
      var gs := CleanSlot(storage[d], reported);
      if gs == [] then storage - {d} else storage[d := gs]
  }

  lemma CleanSlotKeepsOk(w: World, d: int, gs: seq<Group>, reported: set<string>)
    requires w.cfg.Valid() && SlotOk(w, d, gs) && CleanSlot(gs, reported) != []
    ensures SlotOk(w, d, CleanSlot(gs, reported))
  {
    var remaining, after := Keep(Flatten(gs), reported), CleanSlot(gs, reported);
    forall j | 0 <= j < |after| ensures GroupOk(w, d, after[j]) {
      RedistributeMember(gs, remaining, after[j]);
      var k :| 0 <= k < |gs| && after[j] == Group(gs[k].exitRequest, Share(remaining, gs[k].validators));
      assert GroupOk(w, d, gs[k]);
    }
    forall e | e in Flatten(after) ensures HasOrigin(w, d, after, e) {
      CleanSlotMember(gs, reported, e);
      var k :| 0 <= k < |gs| && e in gs[k].validators && Belongs(w, d, gs[k].exitRequest, e);
      OwnStays(gs, reported, k, e);
      var g := Group(gs[k].exitRequest, Share(remaining, gs[k].validators));
      var j :| 0 <= j < |after| && after[j] == g;
      assert e in after[j].validators && Belongs(w, d, after[j].exitRequest, e);
    }
  }

  lemma CleanStorageKeepsOk(w: World, storage: Storage, d: int, reported: set<string>)
    requires w.cfg.Valid() && Ok(w, storage, reported)
    ensures Ok(w, CleanStorage(storage, d, reported), reported)
  {
    if d in storage {
      var after := CleanStorage(storage, d, reported);
      if CleanSlot(storage[d], reported) != [] {
        CleanSlotKeepsOk(w, d, storage[d], reported);
      }
      forall p | p in reported ensures Stored(after, p) {
        var d', e :| d' in storage && e in Flatten(storage[d']) && e.validator.pubkey == p;
        if d' == d {
          CleanSlotMember(storage[d], reported, e);
          assert e in Flatten(CleanSlot(storage[d], reported));
          assert d in after && e in Flatten(after[d]);
        } else {
          assert d' in after && after[d'] == storage[d'];
        }
      }
    }
  }

  // ---------- what the invariant gives while a slot is processed ----------

  /**
    With the delivery time of whichever request comes first in the slot, every validator of the
    slot is eligible at every proof slot after the deadline slot.
   */
  lemma {:induction false} EligibleUnderFirstRequest(w: World, d: int, gs: seq<Group>, e: Tracked, proofSlot: int)
    requires w.cfg.Valid() && SlotOk(w, d, gs) && e in Flatten(gs) && proofSlot >= d + 1
    ensures w.cfg.SlotToTimestamp(proofSlot) >
            w.cfg.EligibleExitRequestTimestamp(w.delivered(gs[0].exitRequest.hash), e.activationEpoch)
  {
    TimestampMonotone(w.cfg, d + 1, proofSlot);
    assert GroupOk(w, d, gs[0]);
    var k :| 0 <= k < |gs| && e in gs[k].validators && Belongs(w, d, gs[k].exitRequest, e);
    var threshold: nat :| DeadlineIn(w.cfg, d, w.delivered(gs[k].exitRequest.hash), e.activationEpoch, threshold);
    DeadlineBounds(w.cfg, d, w.delivered(gs[k].exitRequest.hash), e.activationEpoch, threshold);
  }

  lemma DeadlineBounds(c: Config, d: int, delivered: int, activationEpoch: nat, threshold: nat)
    requires c.Valid() && DeadlineIn(c, d, delivered, activationEpoch, threshold)
    ensures c.EligibleExitRequestTimestamp(delivered, activationEpoch) + threshold < c.SlotToTimestamp(d + 1)
  {
    DeadlineSlotUnique(c, c.EligibleExitRequestTimestamp(delivered, activationEpoch) + threshold, d);
  }

  /** Under its own request's delivery time, a validator is more than the threshold past eligibility. */
  lemma PastThresholdUnderOwnRequest(w: World, d: int, gs: seq<Group>, e: Tracked, proofSlot: int)
    returns (k: nat, threshold: nat)
    requires w.cfg.Valid() && SlotOk(w, d, gs) && e in Flatten(gs) && proofSlot >= d + 1
    ensures k < |gs| && e in gs[k].validators && Aligned(gs[k].exitRequest, e.validator)
    ensures DeadlineIn(w.cfg, d, w.delivered(gs[k].exitRequest.hash), e.activationEpoch, threshold)
    ensures w.cfg.SlotToTimestamp(proofSlot)
            - w.cfg.EligibleExitRequestTimestamp(w.delivered(gs[k].exitRequest.hash), e.activationEpoch) > threshold
  {
    k :| 0 <= k < |gs| && e in gs[k].validators && Belongs(w, d, gs[k].exitRequest, e);
    threshold :| DeadlineIn(w.cfg, d, w.delivered(gs[k].exitRequest.hash), e.activationEpoch, threshold);
    DeadlineBounds(w.cfg, d, w.delivered(gs[k].exitRequest.hash), e.activationEpoch, threshold);
    TimestampMonotone(w.cfg, d + 1, proofSlot);
  }

  /** When the groups of a slot share one request, every validator of the slot is aligned with it. */
  lemma {:induction false} SharedRequestAligns(w: World, d: int, gs: seq<Group>, request: ExitRequest, e: Tracked)
    requires w.cfg.Valid() && SlotOk(w, d, gs) && e in Flatten(gs)
    requires forall k :: 0 <= k < |gs| ==> gs[k].exitRequest == request
    ensures Aligned(request, e.validator)
  {
    var k :| 0 <= k < |gs| && e in gs[k].validators && Belongs(w, d, gs[k].exitRequest, e);
  }
}
