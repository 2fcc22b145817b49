/** Preparing one historical batch: the slot search, the summary state, and the proof that goes along. */
module HistoricalBatches {
  import opened Wrappers
  import opened Arithmetic
  import opened Merkle
  import opened Proofs
  import opened SlotMath
  import opened BeaconChain
  import opened HistoricalProof
  import opened AvailableSlots
  import opened ValidatorStorage
  import opened StorageInvariant
  import opened SlotProcessing

  /** A summary state as fetched and deserialized. */
  datatype SummaryFetch = Unfetched | Undecodable | Fetched(view: StateView)

  /** A chain, the layouts of its finalized and its summary states, and the finalized slot. */
  datatype Finality = Finality(chain: Chain, finalizedLayout: Layout, summaryLayout: Layout, slot: nat)

  /** The program's parameters and its finalized state describe this chain. */
  ghost predicate Describing(cfg: Config, f: Finality, finalized: StateView) {
    && Describes(cfg, f.chain) && f.finalizedLayout.Valid() && f.summaryLayout.Valid()
    && |StateAt(f.chain, f.slot).summaries| <= Pow2(SUMMARIES_DEPTH)
    && finalized == View(f.chain, f.finalizedLayout, StateAt(f.chain, f.slot))
  }

  /** A summary state that is fetched and deserialized is the chain's. */
  ghost predicate Truthful(f: Finality, fetches: int -> SummaryFetch)
    requires f.summaryLayout.Valid()
  {
    forall n: nat :: fetches(n).Fetched? && |StateAt(f.chain, n).summaries| <= Pow2(SUMMARIES_DEPTH) ==>
      fetches(n).view == View(f.chain, f.summaryLayout, StateAt(f.chain, n))
  }

  function SummarySlot(cfg: Config, slot: int): int
    requires cfg.Valid()
  {
    cfg.CalcSlotOfSummary(cfg.CalcSummaryIndex(slot))
  }

  /** The proof leads from the block root of the slot to the root of the finalized state. */
  ghost predicate ProvesBlockRoot(f: Finality, finalized: StateView, slot: nat, proof: SingleProof) {
    && |proof.witnesses| == Depth(proof.gindex)
    && Fold(f.chain.hash, proof.gindex, proof.witnesses, f.chain.blockRoot(slot)) == Root(f.chain.hash, finalized.node)
  }

  /**
    What the preparation of a batch comes to, by where its search ends and by what the summary state
    of the slot found is: a proof exactly when that state can be read and its slot is not after the
    finalized one.
   */
  ghost predicate PreparedAs(cfg: Config, f: Finality, finalized: StateView, found: Answer<int>,
                             fetches: int -> SummaryFetch, answer: SummaryAnswer)
    requires cfg.Valid()
  {
    if found.Fails? then answer.SummaryThrew?
    else
      match fetches(SummarySlot(cfg, found.value))
      case Unfetched => answer.SummaryThrew?
      case Undecodable => answer.CorruptSummary?
      case Fetched(_) =>
        if SummarySlot(cfg, found.value) > f.slot then answer.SummaryThrew?
        else answer.Ready? && answer.slot == found.value && found.value >= 0
             && ProvesBlockRoot(f, finalized, found.value, answer.proof)
  }

  method PrepareHistoricalBatch(cfg: Config, ghost f: Finality, h: Hasher, rootsDepth: nat, finalized: StateView,
                                headers: int -> HeaderAnswer, requested: nat, fetches: int -> SummaryFetch)
    returns (answer: SummaryAnswer)
    requires Describing(cfg, f, finalized) && Truthful(f, fetches)
    requires h == f.chain.hash && rootsDepth == f.chain.rootsDepth && requested >= f.chain.capellaSlot
    requires forall slot: nat :: requested <= slot < requested + MAX_ATTEMPTS ==> WithinLimit(f.chain, f.slot, slot)
    ensures PreparedAs(cfg, f, finalized, NextSlot(headers, requested, MAX_ATTEMPTS), fetches, answer)
  {
    var found := FindNextAvailableSlot(headers, requested, MAX_ATTEMPTS);
    if found.Fails? {
      return SummaryThrew;
    }
    var actual: nat := found.value;
    var summaryIndex := cfg.CalcSummaryIndex(actual);
    var rootIndex := cfg.CalcRootIndexInSummary(actual);
    var summarySlot := cfg.CalcSlotOfSummary(summaryIndex);
    var fetched := fetches(summarySlot);
    match fetched {
      case Unfetched => return SummaryThrew;
      case Undecodable => return CorruptSummary;
      case Fetched(view) =>
        CoordinatesMeetTheChain(cfg, f.chain, f.finalizedLayout, f.summaryLayout, f.slot, actual);
        var r := ProveAt(h, finalized, view, rootsDepth, summaryIndex, rootIndex, f.chain.blockRoot(actual),
                         summarySlot <= f.slot);
        if !r.Proven? {
          return SummaryThrew;
        }
        return Ready(actual, r.proof);
    }
  }

  /** Every historical batch of the slot was prepared like this, with a slot search of its own. */
  ghost predicate AllPrepared(cfg: Config, f: Finality, finalized: StateView, requested: int,
                              searches: nat -> int -> HeaderAnswer, fetches: int -> SummaryFetch, a: SlotAnswers)
    requires cfg.Valid()
  {
    forall i: nat ::
      PreparedAs(cfg, f, finalized, NextSlot(searches(i), requested, MAX_ATTEMPTS), fetches, a.summary(i))
  }

  /**
    A historical batch whose search ends and whose summary state can be read reaches the executor
    exactly when that state's slot is not after the finalized one.
   */
  lemma HistoricalBatchReaches(cfg: Config, f: Finality, finalized: StateView, found: Answer<int>,
                               fetches: int -> SummaryFetch, a: SlotAnswers, i: nat)
    requires cfg.Valid() && PreparedAs(cfg, f, finalized, found, fetches, a.summary(i))
    ensures Reaches(a, true, i) <==>
            && found.Reply? && fetches(SummarySlot(cfg, found.value)).Fetched?
            && SummarySlot(cfg, found.value) <= f.slot
  {
  }

  /** Every historical submission of a slot carries a proof of its own slot's block root against the finalized state. */
  lemma HistoricalSubmissionsProve(w: World, batchSize: nat, slot: int, gs: seq<Group>, a: SlotAnswers, s: Submission,
                                   f: Finality, finalized: StateView, searches: nat -> int -> HeaderAnswer,
                                   fetches: int -> SummaryFetch)
    requires w.cfg.Valid() && batchSize >= 1 && gs != [] && s in RunSlot(w, batchSize, slot, gs, a).submissions
    requires AllPrepared(w.cfg, f, finalized, slot, searches, fetches, a)
    requires a.head.Reply? && w.cfg.IsSlotOld(slot, a.head.value)
    ensures s.slot >= 0 && s.proof.Some? && SummarySlot(w.cfg, s.slot) <= f.slot
    ensures ProvesBlockRoot(f, finalized, s.slot, s.proof.value)
  {
    var i := SubmissionIsBatch(w, batchSize, slot, gs, a, s);
    var found := NextSlot(searches(i), slot, MAX_ATTEMPTS);
    assert PreparedAs(w.cfg, f, finalized, found, fetches, a.summary(i));
    HistoricalBatchReaches(w.cfg, f, finalized, found, fetches, a, i);
  }
}
