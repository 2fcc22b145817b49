/**
  The historical proof pipeline end to end: slot arithmetic, the summary state, the grafted proof,
  over every evolution of the chain.
 */
module HistoricalProof {
  import opened Wrappers
  import opened Arithmetic
  import opened Bytes
  import opened Merkle
  import opened Proofs
  import opened SlotMath
  import opened BeaconChain
  import opened AvailableSlots

  /** The program's parameters describe this chain, and the fork slot is aligned. */
  ghost predicate Describes(cfg: Config, c: Chain) {
    cfg.Valid() && cfg.slotsPerHistoricalRoot == c.Span() && cfg.CapellaSlot() == c.capellaSlot && Aligned(cfg)
  }

  // ---------- the summary that covers a slot ----------

  /** The summary whose block roots include the slot's, by counting ring boundaries. */
  function CoveringSummary(c: Chain, slot: nat): nat
    requires slot >= c.capellaSlot
  {
    DivMonotone(c.capellaSlot, slot, c.Span());
    slot / c.Span() - c.capellaSlot / c.Span()
  }

  lemma CoveringSummarySpan(c: Chain, slot: nat)
    requires slot >= c.capellaSlot
    ensures AppendSlot(c, CoveringSummary(c, slot)) - c.Span() <= slot < AppendSlot(c, CoveringSummary(c, slot))
    ensures AppendSlot(c, CoveringSummary(c, slot)) > c.capellaSlot
  {
    var s := c.Span();
    DivMonotone(c.capellaSlot, slot, s);
    DivBounds(slot, s);
    var q := slot / s;
    assert (q + 1) * s == q * s + s;
  }

  /**
    The program's index and slot of the summary are those of the chain for every slot from the fork
    on exactly when the fork slot is aligned with the ring buffer.
   */
  lemma SummaryArithmeticExact(cfg: Config, c: Chain)
    requires cfg.Valid() && cfg.slotsPerHistoricalRoot == c.Span() && cfg.CapellaSlot() == c.capellaSlot
    ensures Aligned(cfg) <==>
            forall slot: nat :: slot >= c.capellaSlot ==>
              && cfg.CalcSummaryIndex(slot) == CoveringSummary(c, slot)
              && cfg.CalcSlotOfSummary(cfg.CalcSummaryIndex(slot)) == AppendSlot(c, CoveringSummary(c, slot))
  {
    var s, r, a := c.Span(), c.capellaSlot % c.Span(), c.capellaSlot / c.Span();
    assert c.capellaSlot == a * s + r;
    if Aligned(cfg) {
      forall slot: nat | slot >= c.capellaSlot
        ensures cfg.CalcSummaryIndex(slot) == CoveringSummary(c, slot)
        ensures cfg.CalcSlotOfSummary(cfg.CalcSummaryIndex(slot)) == AppendSlot(c, CoveringSummary(c, slot))
      {
        AlignedSummary(cfg, c, slot);
      }
    } else {
      var slot := c.capellaSlot + (s - r);
      DivModUnique(slot, s, a + 1, 0);
      DivModUnique(slot - c.capellaSlot, s, 0, s - r);
      assert cfg.CalcSummaryIndex(slot) != CoveringSummary(c, slot);
    }
  }

  lemma AlignedSummary(cfg: Config, c: Chain, slot: nat)
    requires Describes(cfg, c) && slot >= c.capellaSlot
    ensures cfg.CalcSummaryIndex(slot) == CoveringSummary(c, slot)
    ensures cfg.CalcSlotOfSummary(cfg.CalcSummaryIndex(slot)) == AppendSlot(c, CoveringSummary(c, slot))
  {
    var s, a, k := c.Span(), c.capellaSlot / c.Span(), CoveringSummary(c, slot);
    assert c.capellaSlot == a * s;
    DivModShift(slot - c.capellaSlot, s, a);
    CoveringSummarySpan(c, slot);
    Distribute(a, k + 1, s);
  }

  /** A finalized state holds summary k exactly when it is no earlier than the slot that appends it. */
  lemma SummaryHeldExact(c: Chain, n: nat, k: nat)
    requires AppendSlot(c, k) > c.capellaSlot
    ensures k < SummaryCount(c, n) <==> AppendSlot(c, k) <= n
  {
    var s, a := c.Span(), c.capellaSlot / c.Span();
    DivBounds(n, s);
    var q := n / s;
    if AppendSlot(c, k) <= n {
      if q < a + k + 1 {
        MulMonotone(q + 1, a + k + 1, s);
      }
    } else if n > c.capellaSlot {
      if q >= a + k + 1 {
        MulMonotone(a + k + 1, q, s);
      }
    }
  }

  // ---------- the trees ----------

  lemma BlockRootsAt(c: Chain, l: Layout, st: BeaconState)
    requires l.Valid() && |st.blockRoots| == c.Span() && |st.summaries| <= Pow2(SUMMARIES_DEPTH)
    ensures BlockRootsNode(View(c, l, st)) == Some(BlockRootsTree(c, st.blockRoots))
  {
    PackAt(l.fieldDepth, Fields(c, l, st), BLOCK_ROOTS_FIELD, FieldIndex(l.fieldDepth, BLOCK_ROOTS_FIELD));
  }

  lemma {:induction false} BlockRootLeafAt(c: Chain, roots: seq<Chunk>, i: nat)
    requires |roots| == c.Span() && i < c.Span()
    ensures NodeAt(BlockRootsTree(c, roots), Pow2(c.rootsDepth) + i) == Some(Leaf(roots[i]))
  {
    PackAt(c.rootsDepth, Leaves(roots), i, Pow2(c.rootsDepth) + i);
  }

  /** The path to summary k ends at its block root, and leads nowhere when there is no summary k. */
  lemma SummaryRootAt(c: Chain, l: Layout, st: BeaconState, k: nat)
    requires l.Valid() && |st.blockRoots| == c.Span() && |st.summaries| <= Pow2(SUMMARIES_DEPTH)
    requires k < Pow2(SUMMARIES_DEPTH)
    ensures NodeAt(View(c, l, st).node, BlockSummaryRootIndex(l.fieldDepth, k)) ==
            if k < |st.summaries| then Some(Leaf(st.summaries[k].blockSummaryRoot)) else None
  {
    var node := View(c, l, st).node;
    var list, item := FieldIndex(l.fieldDepth, HISTORICAL_SUMMARIES_FIELD), ListItemIndex(SUMMARIES_DEPTH, k);
    var xs := SummaryTrees(st.summaries);
    var listTree := Node(Pack(SUMMARIES_DEPTH, xs), Leaf(l.lengthChunk));
    PackAt(l.fieldDepth, Fields(c, l, st), HISTORICAL_SUMMARIES_FIELD, list);
    assert NodeAt(node, list) == Some(listTree);
    ListElementAt(SUMMARIES_DEPTH, xs, Leaf(l.lengthChunk), k);
    SummaryFieldAt(node, list, item, listTree, if k < |xs| then xs[k] else Leaf(ZERO_CHUNK));
  }

  lemma {:induction false} SummaryFieldAt(node: Tree, list: nat, item: nat, listTree: Tree, element: Tree)
    requires list >= 1 && item >= 1 && NodeAt(node, list) == Some(listTree) && NodeAt(listTree, item) == Some(element)
    ensures NodeAt(node, Concat(Concat(list, item), 2)) == if element.Node? then Some(element.left) else None
  {
    NodeAtConcat(node, list, item);
    DepthConcat(list, item);
    NodeAtConcat(node, Concat(list, item), 2);
    LeftChildAt(element);
  }

  // ---------- end to end ----------

  /** The lists of the two states stay within their type limit. */
  ghost predicate WithinLimit(c: Chain, finalizedSlot: nat, slot: nat)
    requires slot >= c.capellaSlot
  {
    SummaryCount(c, finalizedSlot) <= Pow2(SUMMARIES_DEPTH) && CoveringSummary(c, slot) < Pow2(SUMMARIES_DEPTH)
  }

  /**
    The coordinates lead to the leaf in the summary state's block roots; they can be followed in the
    finalized state exactly when it holds the summary, and then the block roots hash to what they replace.
   */
  ghost predicate RightCoordinates(h: Hasher, finalized: StateView, summary: StateView, rootsDepth: nat,
                                   summaryIndex: nat, rootIndex: nat, leaf: Chunk, held: bool)
  {
    var replaced, roots :=
      NodeAt(finalized.node, BlockSummaryRootIndex(finalized.fieldDepth, summaryIndex)), BlockRootsNode(summary);
    && (replaced.Some? <==> held)
    && roots.Some?
    && NodeAt(roots.value, Pow2(rootsDepth) + rootIndex) == Some(Leaf(leaf))
    && (held ==> Root(h, replaced.value) == Root(h, roots.value))
  }

  /**
    Over every chain the computed coordinates are right, with the block root of the slot as the leaf
    and the summary held exactly when its slot is not after the finalized one.
   */
  lemma {:induction false} CoordinatesMeetTheChain(cfg: Config, c: Chain, lf: Layout, ls: Layout, finalizedSlot: nat,
                                                   slot: nat)
    requires Describes(cfg, c) && lf.Valid() && ls.Valid()
    requires slot >= c.capellaSlot && WithinLimit(c, finalizedSlot, slot)
    ensures var index, summarySlot := cfg.CalcSummaryIndex(slot), cfg.CalcSlotOfSummary(cfg.CalcSummaryIndex(slot));
            && 0 <= index && c.capellaSlot < summarySlot
            && |StateAt(c, finalizedSlot).summaries| <= Pow2(SUMMARIES_DEPTH)
            && |StateAt(c, summarySlot).summaries| <= Pow2(SUMMARIES_DEPTH)
            && RightCoordinates(c.hash, View(c, lf, StateAt(c, finalizedSlot)), View(c, ls, StateAt(c, summarySlot)),
                                c.rootsDepth,
                                index, cfg.CalcRootIndexInSummary(slot), c.blockRoot(slot),
                                summarySlot <= finalizedSlot)
  {
    AlignedSummary(cfg, c, slot);
    CoordinatesByCounting(c, lf, ls, finalizedSlot, slot);
  }

  lemma {:induction false} CoordinatesByCounting(c: Chain, lf: Layout, ls: Layout, finalizedSlot: nat, slot: nat)
    requires lf.Valid() && ls.Valid()
    requires slot >= c.capellaSlot && WithinLimit(c, finalizedSlot, slot)
    ensures var k := CoveringSummary(c, slot);
            var n := AppendSlot(c, k);
            && c.capellaSlot < n
            && |StateAt(c, finalizedSlot).summaries| <= Pow2(SUMMARIES_DEPTH)
            && |StateAt(c, n).summaries| <= Pow2(SUMMARIES_DEPTH)
            && RightCoordinates(c.hash, View(c, lf, StateAt(c, finalizedSlot)), View(c, ls, StateAt(c, n)),
                                c.rootsDepth,
                                k, slot % c.Span(), c.blockRoot(slot), n <= finalizedSlot)
  {
    var k := CoveringSummary(c, slot);
    var n := AppendSlot(c, k);
    CoveringSummarySpan(c, slot);
    SummaryHolds(c, finalizedSlot, k);
    SummaryHolds(c, n, k);
    NextSummaryNotYet(c, k);
    RingHoldsLastRoots(c, n, slot);
    CoordinatesInTrees(c, lf, ls, StateAt(c, finalizedSlot), StateAt(c, n), k, slot % c.Span());
  }

  /** Coordinates that are right for two states are right for their trees. */
  lemma CoordinatesInTrees(c: Chain, lf: Layout, ls: Layout, finalized: BeaconState, summary: BeaconState, k: nat,
                           i: nat)
    requires lf.Valid() && ls.Valid() && k < Pow2(SUMMARIES_DEPTH) && i < c.Span()
    requires |finalized.blockRoots| == |summary.blockRoots| == c.Span()
    requires |finalized.summaries| <= Pow2(SUMMARIES_DEPTH) && |summary.summaries| <= Pow2(SUMMARIES_DEPTH)
    requires k < |finalized.summaries| ==>
               finalized.summaries[k].blockSummaryRoot == Root(c.hash, BlockRootsTree(c, summary.blockRoots))
    ensures RightCoordinates(c.hash, View(c, lf, finalized), View(c, ls, summary), c.rootsDepth,
                             k, i, summary.blockRoots[i], k < |finalized.summaries|)
  {
    BlockRootsAt(c, ls, summary);
    BlockRootLeafAt(c, summary.blockRoots, i);
    SummaryRootAt(c, lf, finalized, k);
  }

  /** Summary k is in the state exactly from its append slot on, and is then the root of that slot's block roots. */
  lemma {:induction false} SummaryHolds(c: Chain, n: nat, k: nat)
    requires AppendSlot(c, k) > c.capellaSlot
    ensures |StateAt(c, n).summaries| == SummaryCount(c, n)
    ensures k < |StateAt(c, n).summaries| <==> AppendSlot(c, k) <= n
    ensures k < |StateAt(c, n).summaries| ==>
              StateAt(c, n).summaries[k].blockSummaryRoot ==
              Root(c.hash, BlockRootsTree(c, StateAt(c, AppendSlot(c, k)).blockRoots))
  {
    SummariesAt(c, n);
    SummaryHeldExact(c, n, k);
  }

  lemma NextSummaryNotYet(c: Chain, k: nat)
    requires AppendSlot(c, k) > c.capellaSlot
    ensures SummaryCount(c, AppendSlot(c, k)) == k + 1
  {
    var n := AppendSlot(c, k);
    DivModUnique(n, c.Span(), c.capellaSlot / c.Span() + k + 1, 0);
  }

  /**
    What the program does for one historical slot, given the state the beacon node returns for the
    summary slot. It succeeds exactly when the summary slot is not after the finalized slot, and
    what it then proves is the block root of the slot.
   */
  method ProveHistoricalSlot(cfg: Config, ghost c: Chain, h: Hasher, rootsDepth: nat,
                             ghost lf: Layout, ghost ls: Layout, ghost finalizedSlot: nat, slot: nat,
                             finalized: StateView, summaryStates: int -> StateView) returns (r: ProofResult)
    requires Describes(cfg, c) && lf.Valid() && ls.Valid() && h == c.hash && rootsDepth == c.rootsDepth
    requires slot >= c.capellaSlot && WithinLimit(c, finalizedSlot, slot)
    requires |StateAt(c, finalizedSlot).summaries| <= Pow2(SUMMARIES_DEPTH)
    requires finalized == View(c, lf, StateAt(c, finalizedSlot))
    requires forall n: nat :: |StateAt(c, n).summaries| <= Pow2(SUMMARIES_DEPTH) ==>
               summaryStates(n) == View(c, ls, StateAt(c, n))
    ensures r.Proven? <==> cfg.CalcSlotOfSummary(cfg.CalcSummaryIndex(slot)) <= finalizedSlot
    ensures r.Proven? ==> |r.proof.witnesses| == Depth(r.proof.gindex)
                          && Fold(h, r.proof.gindex, r.proof.witnesses, c.blockRoot(slot)) == Root(h, finalized.node)
    ensures !r.Proven? ==> r.NotNavigable?
  {
    CoordinatesMeetTheChain(cfg, c, lf, ls, finalizedSlot, slot);
    var summaryIndex := cfg.CalcSummaryIndex(slot);
    var rootIndex := cfg.CalcRootIndexInSummary(slot);
    var summarySlot := cfg.CalcSlotOfSummary(summaryIndex);
    var summary := summaryStates(summarySlot);
    r := ProveAt(h, finalized, summary, rootsDepth, summaryIndex, rootIndex, c.blockRoot(slot),
                 summarySlot <= finalizedSlot);
  }

  /** Along right coordinates the proof succeeds exactly when the summary is held, and proves the leaf. */
  method ProveAt(h: Hasher, finalized: StateView, summary: StateView, rootsDepth: nat,
                 summaryIndex: nat, rootIndex: nat, ghost leaf: Chunk, ghost held: bool) returns (r: ProofResult)
    requires RightCoordinates(h, finalized, summary, rootsDepth, summaryIndex, rootIndex, leaf, held)
    ensures r.Proven? <==> held
    ensures r.Proven? ==> |r.proof.witnesses| == Depth(r.proof.gindex)
                          && Fold(h, r.proof.gindex, r.proof.witnesses, leaf) == Root(h, finalized.node)
    ensures !r.Proven? ==> r.NotNavigable?
  {
    r := GenerateHistoricalStateProof(h, finalized, summary, rootsDepth, summaryIndex, rootIndex);
  }

  // ---------- the gate in front of the pipeline ----------

  /** The gate looks at the slot asked for, the proof at the slot found for it, which may lie further on. */
  ghost predicate GateHolds(cfg: Config, headSlot: int, finalizedSlot: int, slot: int, actual: int)
    requires cfg.Valid()
  {
    slot >= cfg.CapellaSlot() && cfg.IsSlotOld(slot, headSlot) && slot <= actual < slot + MAX_ATTEMPTS ==>
      cfg.CalcSlotOfSummary(cfg.CalcSummaryIndex(actual)) <= finalizedSlot
  }

  /**
    The program sends a slot down this path when it is old against the head. The finalized state
    then holds the summary of the slot found, for every slot and whatever slots are missing, exactly
    when no ring boundary lies between the finalized slot and the last slot that the search can
    reach, one attempt limit past the head. Before there are old slots nothing is sent.
   */
  lemma OldSlotGateExact(cfg: Config, headSlot: int, finalizedSlot: int)
    requires cfg.Valid()
    ensures (forall slot, actual :: GateHolds(cfg, headSlot, finalizedSlot, slot, actual)) <==>
            || headSlot - cfg.slotsPerHistoricalRoot < cfg.CapellaSlot()
            || cfg.CalcSummaryIndex(headSlot + MAX_ATTEMPTS - 1) <= cfg.CalcSummaryIndex(finalizedSlot)
  {
    var s, c, newest := cfg.slotsPerHistoricalRoot, cfg.CapellaSlot(), headSlot - cfg.slotsPerHistoricalRoot;
    var last := newest + MAX_ATTEMPTS - 1;
    DivModShift(last - c, s, 1);
    var i, j := cfg.CalcSummaryIndex(headSlot + MAX_ATTEMPTS - 1), cfg.CalcSummaryIndex(finalizedSlot);
    assert i == cfg.CalcSummaryIndex(last) + 1;
    DivBounds(finalizedSlot - c, s);
    if i <= j {
      forall slot, actual ensures GateHolds(cfg, headSlot, finalizedSlot, slot, actual) {
        if slot >= c && cfg.IsSlotOld(slot, headSlot) && slot <= actual < slot + MAX_ATTEMPTS {
          DivMonotone(actual - c, last - c, s);
          MulMonotone(cfg.CalcSummaryIndex(actual) + 1, j, s);
        }
      }
    } else if newest >= c {
      MulMonotone(j + 1, i, s);
      assert !GateHolds(cfg, headSlot, finalizedSlot, newest, last);
    }
  }

  /** The search from a slot that is sent down this path ends where the gate has looked ahead to. */
  lemma {:induction false} FoundSlotHasSummary(cfg: Config, headSlot: int, finalizedSlot: int, slot: int,
                                               headers: int -> HeaderAnswer)
    requires cfg.Valid() && slot >= cfg.CapellaSlot() && cfg.IsSlotOld(slot, headSlot)
    requires NextSlot(headers, slot, MAX_ATTEMPTS).Reply?
    requires cfg.CalcSummaryIndex(headSlot + MAX_ATTEMPTS - 1) <= cfg.CalcSummaryIndex(finalizedSlot)
    ensures cfg.CalcSlotOfSummary(cfg.CalcSummaryIndex(NextSlot(headers, slot, MAX_ATTEMPTS).value)) <= finalizedSlot
  {
    NextSlotFrom(headers, slot, MAX_ATTEMPTS);
    OldSlotGateExact(cfg, headSlot, finalizedSlot);
    assert GateHolds(cfg, headSlot, finalizedSlot, slot, NextSlot(headers, slot, MAX_ATTEMPTS).value);
  }

  const MAINNET := Config(1606824023, 12, 32, 8192, 194048, 98304)

  /** On mainnet parameters: an old slot whose summary the finalized state does not hold yet. */
  lemma OldSlotBeforeItsSummary()
    ensures MAINNET.Valid() && Aligned(MAINNET)
    ensures var head, finalized, slot := 6225920, 6225856, 6217728;
            && MAINNET.CapellaSlot() <= slot && finalized == head - 64
            && MAINNET.IsSlotOld(slot, head)
            && MAINNET.CalcSlotOfSummary(MAINNET.CalcSummaryIndex(slot)) > finalized
  {
  }

  /**
    On mainnet parameters, with no ring boundary between finalized slot and head: an old slot
    without a block, so that the next one is proven, whose summary no state holds yet.
   */
  lemma FoundSlotBeforeItsSummary(headers: int -> HeaderAnswer)
    requires headers(6217727).Missing? && headers(6217728).Found?
    ensures var head, finalized, slot, actual := 6225919, 6225855, 6217727, 6217728;
            && NextSlot(headers, slot, MAX_ATTEMPTS) == Reply(actual)
            && MAINNET.CapellaSlot() <= slot && finalized == head - 64 && MAINNET.IsSlotOld(slot, head)
            && MAINNET.CalcSummaryIndex(head) == MAINNET.CalcSummaryIndex(finalized)
            && MAINNET.CalcSlotOfSummary(MAINNET.CalcSummaryIndex(actual)) == 6225920 > head
  {
  }

  /** Mainnet's chain meets the hypotheses above, with deneb's and electra's state layouts, up to slot 137 billion. */
  lemma MainnetMeetsHypotheses(c: Chain, field: nat -> Tree, lengthChunk: Chunk, finalizedSlot: nat, slot: nat)
    requires c.rootsDepth == 13 && c.capellaSlot == 6209536
    requires 6209536 <= slot <= 137_000_000_000 && finalizedSlot <= 137_000_000_000
    ensures Describes(MAINNET, c) && WithinLimit(c, finalizedSlot, slot)
    ensures Layout(5, 28, field, lengthChunk).Valid() && Layout(6, 37, field, lengthChunk).Valid()
  {
    assert Pow2(5) == 32 && Pow2(6) == 64;
    assert Pow2(13) == 128 * Pow2(6) && Pow2(13) == 8192;
    assert Pow2(24) == 2048 * Pow2(13) && Pow2(24) == 16777216;
  }
}
