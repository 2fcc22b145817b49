/** Merkle proof checking and generation over beacon state trees (src/common/helpers/proofs.ts). */
module Proofs {
  import opened Wrappers
  import opened Arithmetic
  import opened Bytes
  import opened Merkle

  datatype Verdict = Accepted | ExtraItem | MissingItems | NotValid

  /**
    Walks the branch upwards, as the program does. The specification is about the index alone:
    the branch must be exactly as long as the index is deep, and must fold to the root.
   */
  method VerifyProof(h: Hasher, root: Chunk, gI: nat, proof: seq<Chunk>, value: Chunk) returns (r: Verdict)
    ensures r == ExtraItem <==> |proof| > Depth(gI)
    ensures r == MissingItems <==> |proof| < Depth(gI) || (gI == 0 && proof == [])
    ensures r == Accepted <==> gI >= 1 && |proof| == Depth(gI) && Fold(h, gI, proof, value) == root
  {
    var buf: Chunk, g := value, gI;
    var i := 0;
    while i < |proof|
      invariant 0 <= i <= |proof|
      invariant g == 0 ==> gI == 0 && i == 0
      invariant g >= 1 ==> gI >= 1 && Depth(g) + i == Depth(gI)
      invariant Fold(h, g, proof[i..], buf) == Fold(h, gI, proof, value)
    {
      var p := proof[i];
      buf := if g % 2 == 0 then h(buf + p) else h(p + buf);
      assert proof[i..][1..] == proof[i + 1..];
      g := g / 2;
      if g == 0 {
        return ExtraItem;
      }
      i := i + 1;
    }
    if g != 1 {
      return MissingItems;
    }
    ToHexInjective(root, buf);
    return if ToHex(root) != ToHex(buf) then NotValid else Accepted;
  }

  /** Every genuine branch of every tree has the length and the fold that VerifyProof asks for. */
  lemma {:induction false} GenuineBranchAccepted(h: Hasher, t: Tree, g: nat)
    requires NodeAt(t, g).Some?
    ensures g >= 1 && |Branch(h, t, g)| == Depth(g)
    ensures Fold(h, g, Branch(h, t, g), Root(h, NodeAt(t, g).value)) == Root(h, t)
  {
    BranchFolds(h, t, g);
  }

  /**
    An accepted value is the root of the node at the index, with its genuine branch; otherwise the
    walk along both branches stops at a collision between a pair hashed by the checker and a pair
    of the tree.
   */
  lemma {:induction false} AcceptedIsGenuine(h: Hasher, t: Tree, g: nat, proof: seq<Chunk>, value: Chunk)
    requires NodeAt(t, g).Some?
    requires |proof| == Depth(g) && Fold(h, g, proof, value) == Root(h, t)
    ensures |Branch(h, t, g)| == |proof|
    ensures var node, branch := Root(h, NodeAt(t, g).value), Branch(h, t, g);
            var c := Clash(h, g, proof, value, branch, node);
            (value == node && proof == branch)
            || (IsCollision(h, c) && IsRung(h, g, proof, value, c.0) && IsRung(h, g, branch, node, c.1))
  {
    BranchFolds(h, t, g);
    FoldBinds(h, g, proof, value, Branch(h, t, g), Root(h, NodeAt(t, g).value));
  }

  // ---------- where things are in a beacon state ----------

  /** A state tree with the depth of its field level: 5 up to deneb, 6 from electra on. */
  datatype StateView = StateView(node: Tree, fieldDepth: nat)

  const BLOCK_ROOTS_FIELD := 5
  const VALIDATORS_FIELD := 11
  const HISTORICAL_SUMMARIES_FIELD := 27
  const SUMMARIES_DEPTH := 24
  const VALIDATORS_DEPTH := 40

  function FieldIndex(fieldDepth: nat, field: nat): (g: nat)
    ensures g >= 1
  {
    Pow2(fieldDepth) + field
  }

  /** Element i of a list of the given depth; the left child of a list holds its elements. */
  function ListItemIndex(depth: nat, i: nat): (g: nat)
    ensures g >= 2
  {
    DepthConcat(2, Pow2(depth) + i);
    Concat(2, Pow2(depth) + i)
  }

  /** The path historicalSummaries / i / blockSummaryRoot. */
  function BlockSummaryRootIndex(fieldDepth: nat, i: nat): (g: nat)
    ensures g >= 1
  {
    var list := FieldIndex(fieldDepth, HISTORICAL_SUMMARIES_FIELD);
    DepthConcat(list, ListItemIndex(SUMMARIES_DEPTH, i));
    DepthConcat(Concat(list, ListItemIndex(SUMMARIES_DEPTH, i)), 2);
    Concat(Concat(list, ListItemIndex(SUMMARIES_DEPTH, i)), 2)
  }

  /** The path validators / i. */
  function ValidatorIndex(fieldDepth: nat, i: nat): nat {
    Concat(FieldIndex(fieldDepth, VALIDATORS_FIELD), ListItemIndex(VALIDATORS_DEPTH, i))
  }

  function BlockRootsNode(view: StateView): Option<Tree> {
    NodeAt(view.node, FieldIndex(view.fieldDepth, BLOCK_ROOTS_FIELD))
  }

  // ---------- proof generation ----------

  datatype SingleProof = SingleProof(gindex: nat, witnesses: seq<Chunk>)

  datatype ProofResult = Proven(proof: SingleProof) | NotNavigable | Rejected(verdict: Verdict)

  function GenerateValidatorProof(h: Hasher, view: StateView, i: nat): ProofResult {
    var g := ValidatorIndex(view.fieldDepth, i);
    if NodeAt(view.node, g).None? then NotNavigable else Proven(SingleProof(g, Branch(h, view.node, g)))
  }

  lemma {:induction false} ListElementAt(d: nat, xs: seq<Tree>, length: Tree, k: nat)
    requires |xs| <= Pow2(d) && k < Pow2(d)
    ensures NodeAt(Node(Pack(d, xs), length), ListItemIndex(d, k)) == Some(if k < |xs| then xs[k] else Leaf(ZERO_CHUNK))
  {
    var listTree := Node(Pack(d, xs), length);
    NodeAtConcat(listTree, 2, Pow2(d) + k);
    LeftChildAt(listTree);
    PackAt(d, xs, k, Pow2(d) + k);
  }

  /**
    In a state whose validators field holds these records, the proof of validator i is about record i,
    and leads from its root to the state root. Past the last record the path ends in padding.
   */
  lemma {:induction false} ValidatorRecordProven(h: Hasher, view: StateView, fields: seq<Tree>, vs: seq<Tree>,
                                                 length: Tree, i: nat)
    requires VALIDATORS_FIELD < |fields| <= Pow2(view.fieldDepth) && view.node == Pack(view.fieldDepth, fields)
    requires |vs| <= Pow2(VALIDATORS_DEPTH) && fields[VALIDATORS_FIELD] == Node(Pack(VALIDATORS_DEPTH, vs), length)
    requires i < Pow2(VALIDATORS_DEPTH)
    ensures var r, record := GenerateValidatorProof(h, view, i), if i < |vs| then vs[i] else Leaf(ZERO_CHUNK);
            && r.Proven? && NodeAt(view.node, r.proof.gindex) == Some(record)
            && Depth(r.proof.gindex) == |r.proof.witnesses| == view.fieldDepth + 1 + VALIDATORS_DEPTH
            && Fold(h, r.proof.gindex, r.proof.witnesses, Root(h, record)) == Root(h, view.node)
  {
    ValidatorNodeAt(view, fields, vs, length, i);
    ValidatorDepth(view.fieldDepth, i);
    BranchFolds(h, view.node, ValidatorIndex(view.fieldDepth, i));
  }

  lemma {:induction false} ValidatorNodeAt(view: StateView, fields: seq<Tree>, vs: seq<Tree>, length: Tree, i: nat)
    requires VALIDATORS_FIELD < |fields| <= Pow2(view.fieldDepth) && view.node == Pack(view.fieldDepth, fields)
    requires |vs| <= Pow2(VALIDATORS_DEPTH) && fields[VALIDATORS_FIELD] == Node(Pack(VALIDATORS_DEPTH, vs), length)
    requires i < Pow2(VALIDATORS_DEPTH)
    ensures NodeAt(view.node, ValidatorIndex(view.fieldDepth, i)) == Some(if i < |vs| then vs[i] else Leaf(ZERO_CHUNK))
  {
    var list, item := FieldIndex(view.fieldDepth, VALIDATORS_FIELD), ListItemIndex(VALIDATORS_DEPTH, i);
    PackAt(view.fieldDepth, fields, VALIDATORS_FIELD, list);
    ListElementAt(VALIDATORS_DEPTH, vs, length, i);
    NodeAtConcat(view.node, list, item);
  }

  lemma {:induction false} ValidatorDepth(fieldDepth: nat, i: nat)
    requires VALIDATORS_FIELD < Pow2(fieldDepth) && i < Pow2(VALIDATORS_DEPTH)
    ensures ValidatorIndex(fieldDepth, i) >= 1
    ensures Depth(ValidatorIndex(fieldDepth, i)) == fieldDepth + 1 + VALIDATORS_DEPTH
  {
    var list, item := FieldIndex(fieldDepth, VALIDATORS_FIELD), ListItemIndex(VALIDATORS_DEPTH, i);
    DepthConcat(list, item);
    DepthOf(fieldDepth, VALIDATORS_FIELD);
    ListItemDepth(VALIDATORS_DEPTH, i);
  }

  lemma {:induction false} ListItemDepth(depth: nat, i: nat)
    requires i < Pow2(depth)
    ensures Depth(ListItemIndex(depth, i)) == 1 + depth
  {
    DepthConcat(2, Pow2(depth) + i);
    DepthOf(depth, i);
  }

  /** A validator proof, when there is one, is what VerifyProof asks for of the validator's root. */
  lemma ValidatorProofVerifies(h: Hasher, view: StateView, i: nat)
    requires GenerateValidatorProof(h, view, i).Proven?
    ensures var p, t := GenerateValidatorProof(h, view, i).proof, view.node;
            && p.gindex >= 1 && NodeAt(t, p.gindex).Some? && |p.witnesses| == Depth(p.gindex)
            && Fold(h, p.gindex, p.witnesses, Root(h, NodeAt(t, p.gindex).value)) == Root(h, t)
  {
    BranchFolds(h, view.node, ValidatorIndex(view.fieldDepth, i));
  }

  /** Where the pair hashes of the patched and the unpatched tree first collide, if they do. */
  function GraftClash(h: Hasher, t: Tree, g: nat, n: Tree): (seq<Byte>, seq<Byte>)
    requires NodeAt(t, g).Some?
  {
    var branch := Branch(h, t, g);
    Clash(h, g, branch, Root(h, n), branch, Root(h, NodeAt(t, g).value))
  }

  /** Replacing a subtree keeps the root exactly when the subtrees have equal roots or a collision is at hand. */
  lemma {:induction false} GraftKeepsRoot(h: Hasher, t: Tree, g: nat, n: Tree)
    requires NodeAt(t, g).Some?
    ensures Root(h, SetNode(t, g, n)) == Root(h, t) <==>
            Root(h, n) == Root(h, NodeAt(t, g).value) || IsCollision(h, GraftClash(h, t, g, n))
  {
    SetNodeGet(h, t, g, n);
    BranchFolds(h, SetNode(t, g, n), g);
    BranchFolds(h, t, g);
    FoldSameBranch(h, g, Branch(h, t, g), Root(h, n), Root(h, NodeAt(t, g).value));
  }

  /** What the program needs to be able to reach in the two trees. */
  predicate Navigable(finalized: StateView, summary: StateView, rootsDepth: nat, summaryIndex: nat, rootIndex: nat) {
    NodeAt(finalized.node, BlockSummaryRootIndex(finalized.fieldDepth, summaryIndex)).Some?
    && BlockRootsNode(summary).Some?
    && NodeAt(BlockRootsNode(summary).value, Pow2(rootsDepth) + rootIndex).Some?
  }

  /**
    Grafts the summary state's block roots in place of the summary root they are meant to hash to,
    takes one branch through the patched tree, and checks it against the root of the unpatched one.
   */
  method GenerateHistoricalStateProof(h: Hasher, finalized: StateView, summary: StateView, rootsDepth: nat,
                                      summaryIndex: nat, rootIndex: nat) returns (r: ProofResult)
    ensures r.NotNavigable? <==> !Navigable(finalized, summary, rootsDepth, summaryIndex, rootIndex)
    ensures !r.NotNavigable? ==>
              var outer, inner :=
                BlockSummaryRootIndex(finalized.fieldDepth, summaryIndex), Pow2(rootsDepth) + rootIndex;
              var replaced, roots := NodeAt(finalized.node, outer).value, BlockRootsNode(summary).value;
              var leaf := Root(h, NodeAt(roots, inner).value);
              && (r.Proven? <==>
                  Root(h, roots) == Root(h, replaced) || IsCollision(h, GraftClash(h, finalized.node, outer, roots)))
              && (!r.Proven? ==> r == Rejected(NotValid))
              && (r.Proven? ==>
                    && r.proof.gindex == Concat(outer, inner)
                    && r.proof.witnesses == Branch(h, roots, inner) + Branch(h, finalized.node, outer)
                    && |r.proof.witnesses| == Depth(r.proof.gindex)
                    && Fold(h, r.proof.gindex, r.proof.witnesses, leaf) == Root(h, finalized.node))
  {
    var patchedTree := finalized.node;
    var blockSummaryRootGI := BlockSummaryRootIndex(finalized.fieldDepth, summaryIndex);
    var blockRootsGI := Pow2(rootsDepth) + rootIndex;
    var blockRoots := BlockRootsNode(summary);
    if blockRoots.None? || NodeAt(patchedTree, blockSummaryRootGI).None? {
      return NotNavigable;
    }
    patchedTree := SetNode(patchedTree, blockSummaryRootGI, blockRoots.value);
    SetNodeGet(h, finalized.node, blockSummaryRootGI, blockRoots.value);
    var gI := Concat(blockSummaryRootGI, blockRootsGI);
    NodeAtConcat(patchedTree, blockSummaryRootGI, blockRootsGI);
    if NodeAt(patchedTree, gI).None? {
      return NotNavigable;
    }
    var witnesses := Branch(h, patchedTree, gI);
    var value := Root(h, NodeAt(blockRoots.value, blockRootsGI).value);
    BranchConcat(h, patchedTree, blockSummaryRootGI, blockRootsGI);
    BranchFolds(h, patchedTree, gI);
    GraftKeepsRoot(h, finalized.node, blockSummaryRootGI, blockRoots.value);
    DepthConcat(blockSummaryRootGI, blockRootsGI);
    var verdict := VerifyProof(h, Root(h, finalized.node), gI, witnesses, value);
    return if verdict.Accepted? then Proven(SingleProof(gI, witnesses)) else Rejected(verdict);
  }
}
