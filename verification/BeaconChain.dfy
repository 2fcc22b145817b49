/**
  How the parts of the beacon state that the historical proof reads evolve from slot to slot
  (phase0 process_slot, capella process_historical_summaries_update), and where they sit in the
  state tree.
 */
module BeaconChain {
  import opened Arithmetic
  import opened Bytes
  import opened Merkle
  import opened Proofs

  datatype Summary = Summary(blockSummaryRoot: Chunk, stateSummaryRoot: Chunk)

  datatype BeaconState = BeaconState(slot: nat, blockRoots: seq<Chunk>, summaries: seq<Summary>)

  /** One history: the block root in force at each slot, and everything else that is arbitrary. */
  datatype Chain = Chain(hash: Hasher, rootsDepth: nat, capellaSlot: nat,
                         blockRoot: nat -> Chunk, stateSummaryRoot: nat -> Chunk)
  {
    /** SLOTS_PER_HISTORICAL_ROOT, the length of the block-roots ring buffer. */
    function Span(): (s: nat)
      ensures s >= 1
    {
      Pow2(rootsDepth)
    }
  }

  function Leaves(roots: seq<Chunk>): (ts: seq<Tree>)
    ensures |ts| == |roots|
  {
    seq(|roots|, i requires 0 <= i < |roots| => Leaf(roots[i]))
  }

  function BlockRootsTree(c: Chain, roots: seq<Chunk>): Tree
    requires |roots| == c.Span()
  {
    Pack(c.rootsDepth, Leaves(roots))
  }

  /**
    From one slot to the next: record the block root of the slot in the ring buffer; when the next
    slot starts a new ring and capella is in force, append a summary of the full ring.
   */
  function Advance(c: Chain, st: BeaconState): (st': BeaconState)
    requires |st.blockRoots| == c.Span()
    ensures |st'.blockRoots| == c.Span() && st'.slot == st.slot + 1
  {
    var roots := st.blockRoots[st.slot % c.Span() := c.blockRoot(st.slot)];
    var next := st.slot + 1;
    var summaries :=
      if next % c.Span() == 0 && next > c.capellaSlot then
        st.summaries + [Summary(Root(c.hash, BlockRootsTree(c, roots)), c.stateSummaryRoot(next))]
      else st.summaries;
    BeaconState(next, roots, summaries)
  }

  function StateAt(c: Chain, n: nat): (st: BeaconState)
    ensures |st.blockRoots| == c.Span() && st.slot == n
  {
    if n == 0 then BeaconState(0, seq(c.Span(), i => c.blockRoot(0)), []) else Advance(c, StateAt(c, n - 1))
  }

  // ---------- the ring buffer ----------

  /** Distinct slots less than one ring apart use distinct cells. */
  lemma CellsDistinct(s: nat, i: nat, j: nat)
    requires s > 0 && i < j < i + s
    ensures i % s != j % s
  {
    if i % s == j % s {
      var p, q := i / s, j / s;
      assert i == p * s + i % s && j == q * s + j % s;
      if q >= p + 1 {
        MulMonotone(p + 1, q, s);
      } else {
        MulMonotone(q, p, s);
      }
    }
  }

  /** At slot n the ring holds the block root of each of the last Span() slots, in the cell slot % Span(). */
  lemma {:induction false} RingHoldsLastRoots(c: Chain, n: nat, j: nat)
    requires j < n <= j + c.Span()
    ensures StateAt(c, n).blockRoots[j % c.Span()] == c.blockRoot(j)
  {
    if j < n - 1 {
      RingHoldsLastRoots(c, n - 1, j);
      CellsDistinct(c.Span(), j, n - 1);
    }
  }

  // ---------- the summaries ----------

  /** How many summaries the state at slot n holds. */
  function SummaryCount(c: Chain, n: nat): int {
    if n <= c.capellaSlot then 0 else n / c.Span() - c.capellaSlot / c.Span()
  }

  /** The slot at which summary k is appended. */
  function AppendSlot(c: Chain, k: nat): nat {
    MulMonotone(0, c.capellaSlot / c.Span() + k + 1, c.Span());
    (c.capellaSlot / c.Span() + k + 1) * c.Span()
  }

  /** A boundary slot after the fork is the append slot of the next summary. */
  lemma BoundaryIsAppendSlot(c: Chain, n: nat)
    requires n > c.capellaSlot && n % c.Span() == 0
    ensures SummaryCount(c, n) >= 1 && AppendSlot(c, SummaryCount(c, n) - 1) == n
  {
    var s, q, a := c.Span(), n / c.Span(), c.capellaSlot / c.Span();
    assert n == q * s;
    DivBounds(c.capellaSlot, s);
    if q <= a {
      MulMonotone(q, a, s);
    }
  }

  lemma {:induction false} SummariesAt(c: Chain, n: nat)
    ensures |StateAt(c, n).summaries| == SummaryCount(c, n)
    ensures forall k: nat :: k < SummaryCount(c, n) ==>
              StateAt(c, n).summaries[k].blockSummaryRoot ==
              Root(c.hash, BlockRootsTree(c, StateAt(c, AppendSlot(c, k)).blockRoots))
  {
    if n > 0 {
      SummariesAt(c, n - 1);
      DivModStep(n - 1, c.Span());
      if n > c.capellaSlot && n % c.Span() == 0 {
        BoundaryIsAppendSlot(c, n);
      }
    }
  }

  // ---------- the state tree ----------

  /** A fork's container of fields, of which only block roots and summaries matter here. */
  datatype Layout = Layout(fieldDepth: nat, fieldCount: nat, field: nat -> Tree, lengthChunk: Chunk) {
    ghost predicate Valid() {
      HISTORICAL_SUMMARIES_FIELD < fieldCount <= Pow2(fieldDepth)
    }
  }

  function SummaryTree(s: Summary): Tree {
    Node(Leaf(s.blockSummaryRoot), Leaf(s.stateSummaryRoot))
  }

  function SummaryTrees(summaries: seq<Summary>): (ts: seq<Tree>)
    ensures |ts| == |summaries|
  {
    seq(|summaries|, i requires 0 <= i < |summaries| => SummaryTree(summaries[i]))
  }

  function Fields(c: Chain, l: Layout, st: BeaconState): (ts: seq<Tree>)
    requires |st.blockRoots| == c.Span() && |st.summaries| <= Pow2(SUMMARIES_DEPTH)
    ensures |ts| == l.fieldCount
  {
    seq(l.fieldCount, i requires 0 <= i < l.fieldCount =>
      if i == BLOCK_ROOTS_FIELD then BlockRootsTree(c, st.blockRoots)
      else if i == HISTORICAL_SUMMARIES_FIELD then
        Node(Pack(SUMMARIES_DEPTH, SummaryTrees(st.summaries)), Leaf(l.lengthChunk))
      else l.field(i))
  }

  function View(c: Chain, l: Layout, st: BeaconState): StateView
    requires l.Valid() && |st.blockRoots| == c.Span() && |st.summaries| <= Pow2(SUMMARIES_DEPTH)
  {
    StateView(Pack(l.fieldDepth, Fields(c, l, st)), l.fieldDepth)
  }
}
