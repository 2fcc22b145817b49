/** Slot, epoch, deadline and historical-summary arithmetic. */
module SlotMath {
  import opened Arithmetic

  /** The chain parameters the program reads from the beacon node and the verifier contract. */
  datatype Config = Config(genesis: int, secondsPerSlot: int, slotsPerEpoch: int, slotsPerHistoricalRoot: int,
                           capellaForkEpoch: nat, shardCommitteePeriod: nat)
  {
    ghost predicate Valid() {
      secondsPerSlot > 0 && slotsPerEpoch > 0 && slotsPerHistoricalRoot > 0
    }

    function SlotToTimestamp(slot: int): int {
      genesis + slot * secondsPerSlot
    }

    function TimestampToSlot(timestamp: int): int
      requires Valid()
    {
      (timestamp - genesis) / secondsPerSlot
    }

    function EpochToSlot(epoch: int): int {
      epoch * slotsPerEpoch
    }

    function SlotToEpoch(slot: int): int
      requires Valid()
    {
      slot / slotsPerEpoch
    }

    function CapellaSlot(): int {
      EpochToSlot(capellaForkEpoch)
    }

    function CalcSummaryIndex(slot: int): int
      requires Valid()
    {
      (slot - CapellaSlot()) / slotsPerHistoricalRoot
    }

    function CalcSlotOfSummary(summaryIndex: int): int {
      CapellaSlot() + (summaryIndex + 1) * slotsPerHistoricalRoot
    }

    function CalcRootIndexInSummary(slot: nat): nat
      requires Valid()
    {
      slot % slotsPerHistoricalRoot
    }

    /** Decided on the head slot, as the program does. */
    predicate IsSlotOld(slot: int, headSlot: int) {
      headSlot - slot >= slotsPerHistoricalRoot
    }

    /** The earliest voluntary exit of a validator with this activation epoch. */
    function EarliestExitTimestamp(activationEpoch: nat): int {
      genesis + activationEpoch * slotsPerEpoch * secondsPerSlot + shardCommitteePeriod
    }

    function EligibleExitRequestTimestamp(delivered: int, activationEpoch: nat): int {
      Max(delivered, EarliestExitTimestamp(activationEpoch))
    }

    function SlotFromExitDeadline(exitDeadline: int): int
      requires Valid()
    {
      (exitDeadline - genesis) / secondsPerSlot
    }
  }

  // ---------- deadlines ----------

  /** The grouping slot is the one slot whose time span holds the deadline. */
  lemma DeadlineSlotUnique(c: Config, exitDeadline: int, d: int)
    requires c.Valid()
    ensures d == c.SlotFromExitDeadline(exitDeadline) <==>
            c.SlotToTimestamp(d) <= exitDeadline < c.SlotToTimestamp(d + 1)
  {
    var x := exitDeadline - c.genesis;
    DivBounds(x, c.secondsPerSlot);
    if c.SlotToTimestamp(d) <= exitDeadline < c.SlotToTimestamp(d + 1) {
      assert x == d * c.secondsPerSlot + (x - d * c.secondsPerSlot);
      assert (d + 1) * c.secondsPerSlot == d * c.secondsPerSlot + c.secondsPerSlot;
      DivModUnique(x, c.secondsPerSlot, d, x - d * c.secondsPerSlot);
    }
  }

  lemma TimestampMonotone(c: Config, s: int, t: int)
    requires c.Valid() && s <= t
    ensures c.SlotToTimestamp(s) <= c.SlotToTimestamp(t)
  {
    MulMonotone(s, t, c.secondsPerSlot);
  }

  /**
    From the slot after the deadline slot on, a proof is more than the threshold past eligibility;
    at the deadline slot itself it is not.
   */
  lemma DeadlineExact(c: Config, delivered: int, activationEpoch: nat, threshold: nat, proofSlot: int)
    requires c.Valid()
    ensures var eligible := c.EligibleExitRequestTimestamp(delivered, activationEpoch);
            proofSlot >= c.SlotFromExitDeadline(eligible + threshold) + 1 <==>
            c.SlotToTimestamp(proofSlot) - eligible > threshold
  {
    var deadline := c.EligibleExitRequestTimestamp(delivered, activationEpoch) + threshold;
    var d := c.SlotFromExitDeadline(deadline);
    DeadlineSlotUnique(c, deadline, d);
    if proofSlot >= d + 1 {
      TimestampMonotone(c, d + 1, proofSlot);
    } else {
      TimestampMonotone(c, proofSlot, d);
    }
  }

  /** Slots survive the trip through timestamps, and a timestamp falls in the slot it maps to. */
  lemma SlotTimestampRoundTrip(c: Config, slot: int, timestamp: int)
    requires c.Valid()
    ensures c.TimestampToSlot(c.SlotToTimestamp(slot)) == slot
    ensures var s := c.TimestampToSlot(timestamp); c.SlotToTimestamp(s) <= timestamp < c.SlotToTimestamp(s + 1)
  {
    DivModUnique(slot * c.secondsPerSlot, c.secondsPerSlot, slot, 0);
    DivBounds(timestamp - c.genesis, c.secondsPerSlot);
  }

  /** Looking back a window of time reaches a slot exactly when its start is younger than the window and one slot. */
  lemma LookbackReaches(c: Config, now: int, window: int, slot: int)
    requires c.Valid()
    ensures c.TimestampToSlot(now - window) <= slot <==> now - c.SlotToTimestamp(slot) < window + c.secondsPerSlot
  {
    var x := c.TimestampToSlot(now - window);
    SlotTimestampRoundTrip(c, slot, now - window);
    Distribute(slot, 1, c.secondsPerSlot);
    if x <= slot {
      TimestampMonotone(c, x + 1, slot + 1);
    } else {
      TimestampMonotone(c, slot + 1, x);
    }
  }

  lemma EpochSlotRoundTrip(c: Config, epoch: int, slot: int)
    requires c.Valid()
    ensures c.SlotToEpoch(c.EpochToSlot(epoch)) == epoch
    ensures c.EpochToSlot(c.SlotToEpoch(slot)) <= slot < c.EpochToSlot(c.SlotToEpoch(slot) + 1)
  {
    DivModUnique(epoch * c.slotsPerEpoch, c.slotsPerEpoch, epoch, 0);
    DivBounds(slot, c.slotsPerEpoch);
  }

  /**
    An exit can be requested from the time of the request's delivery on, and not before the shard
    committee period after the start of the validator's activation epoch.
   */
  lemma EligibilityExact(c: Config, delivered: int, activationEpoch: nat, time: int)
    requires c.Valid()
    ensures time >= c.EligibleExitRequestTimestamp(delivered, activationEpoch) <==>
            && time >= delivered
            && time - c.shardCommitteePeriod >= c.SlotToTimestamp(c.EpochToSlot(activationEpoch))
  {
  }

  // ---------- historical summaries ----------

  /** The fork slot falls on a boundary of the block-roots ring buffer. */
  ghost predicate Aligned(c: Config)
    requires c.Valid()
  {
    c.CapellaSlot() % c.slotsPerHistoricalRoot == 0
  }

  /** The summary slot of a slot lies after it, by at most one ring buffer. */
  lemma SummarySlotBounds(c: Config, slot: int)
    requires c.Valid()
    ensures slot < c.CalcSlotOfSummary(c.CalcSummaryIndex(slot)) <= slot + c.slotsPerHistoricalRoot
  {
    DivBounds(slot - c.CapellaSlot(), c.slotsPerHistoricalRoot);
    var i, s := c.CalcSummaryIndex(slot), c.slotsPerHistoricalRoot;
    assert (i + 1) * s == i * s + s;
  }

  /** With an aligned fork slot, a slot and its pair (summary index, root index) determine each other. */
  lemma SummaryCoordinates(c: Config, slot: nat, index: int, root: int)
    requires c.Valid() && Aligned(c)
    ensures index == c.CalcSummaryIndex(slot) && root == c.CalcRootIndexInSummary(slot) <==>
            0 <= root < c.slotsPerHistoricalRoot && slot == c.CapellaSlot() + index * c.slotsPerHistoricalRoot + root
  {
    var s := c.slotsPerHistoricalRoot;
    var k := c.CapellaSlot() / s;
    assert c.CapellaSlot() == k * s;
    DivModShift(slot - c.CapellaSlot(), s, k);
    if 0 <= root < s && slot == c.CapellaSlot() + index * s + root {
      DivModUnique(slot - c.CapellaSlot(), s, index, root);
    }
  }

  /** A slot judged old has its summary slot no later than the head. */
  lemma OldSlotHasSummaryByHead(c: Config, slot: int, headSlot: int)
    requires c.Valid() && c.IsSlotOld(slot, headSlot)
    ensures c.CalcSlotOfSummary(c.CalcSummaryIndex(slot)) <= headSlot
  {
    SummarySlotBounds(c, slot);
  }
}
