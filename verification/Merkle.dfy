/**
  Binary Merkle trees addressed by generalized indices.

  The hash is a parameter: any total function from byte strings to chunks. Nothing is assumed
  about it, so statements of soundness end in "or here are two byte strings that collide".
 */
module Merkle {
  import opened Wrappers
  import opened Arithmetic
  import opened Bytes

  type Hasher = seq<Byte> -> Chunk

  datatype Tree = Leaf(value: Chunk) | Node(left: Tree, right: Tree)

  function Root(h: Hasher, t: Tree): Chunk {
    match t
    case Leaf(v) => v
    case Node(l, r) => h(Root(h, l) + Root(h, r))
  }

  /** floor(log2 g): how many steps below the root the generalized index g lies. */
  function Depth(g: nat): nat {
    if g <= 1 then 0 else 1 + Depth(g / 2)
  }

  /** The subtree at generalized index g, when the tree reaches that far. */
  function NodeAt(t: Tree, g: nat): Option<Tree> {
    if g == 0 then None
    else if g == 1 then Some(t)
    else match NodeAt(t, g / 2)
      case Some(Node(l, r)) => Some(if g % 2 == 0 then l else r)
      case _ => None
  }

  /** The siblings met on the way from g up to the root, lowest first. */
  function Branch(h: Hasher, t: Tree, g: nat): seq<Chunk>
    requires NodeAt(t, g).Some?
  {
    if g == 1 then []
    else
      var parent := NodeAt(t, g / 2).value;
      [Root(h, if g % 2 == 0 then parent.right else parent.left)] + Branch(h, t, g / 2)
  }

  /** The tree with the subtree at g replaced by n. */
  function SetNode(t: Tree, g: nat, n: Tree): Tree
    requires NodeAt(t, g).Some?
  {
    if g == 1 then n
    else
      var parent := NodeAt(t, g / 2).value;
      SetNode(t, g / 2, if g % 2 == 0 then Node(n, parent.right) else Node(parent.left, n))
  }

  /** The index of node b of a subtree that itself sits at index a. */
  function Concat(a: nat, b: nat): nat
    requires b >= 1
  {
    if b == 1 then a else 2 * Concat(a, b / 2) + b % 2
  }

  // ---------- generalized indices ----------

  /** The arithmetic form that the consensus specifications give for concatenation. */
  lemma {:induction false} ConcatClosedForm(a: nat, b: nat)
    requires b >= 1
    ensures Pow2(Depth(b)) <= b < 2 * Pow2(Depth(b))
    ensures Concat(a, b) == a * Pow2(Depth(b)) + (b - Pow2(Depth(b)))
  {
    if b > 1 {
      ConcatClosedForm(a, b / 2);
      var p, half := Pow2(Depth(b / 2)), Concat(a, b / 2);
      assert b == 2 * (b / 2) + b % 2 && Pow2(Depth(b)) == 2 * p;
      assert Concat(a, b) == 2 * half + b % 2;
      MulDouble(a, p);
    }
  }

  lemma {:induction false} DepthOf(d: nat, i: nat)
    requires i < Pow2(d)
    ensures Depth(Pow2(d) + i) == d
  {
    if d > 0 {
      DepthOf(d - 1, i / 2);
    }
  }

  lemma {:induction false} DepthConcat(a: nat, b: nat)
    requires a >= 1 && b >= 1
    ensures Depth(Concat(a, b)) == Depth(a) + Depth(b) && Concat(a, b) >= a
  {
    if b > 1 {
      DepthConcat(a, b / 2);
    }
  }

  /** Concatenated indices navigate as composition. */
  lemma {:induction false} NodeAtConcat(t: Tree, a: nat, b: nat)
    requires a >= 1 && b >= 1
    ensures NodeAt(t, Concat(a, b)) ==
            match NodeAt(t, a) { case Some(u) => NodeAt(u, b) case None => None }
  {
    if b > 1 {
      DepthConcat(a, b / 2);
      NodeAtConcat(t, a, b / 2);
    }
  }

  /** A branch through two stacked trees is the inner siblings followed by the outer ones. */
  lemma {:induction false} BranchConcat(h: Hasher, t: Tree, a: nat, b: nat)
    requires a >= 1 && b >= 1 && NodeAt(t, a).Some? && NodeAt(NodeAt(t, a).value, b).Some?
    ensures NodeAt(t, Concat(a, b)).Some?
    ensures Branch(h, t, Concat(a, b)) == Branch(h, NodeAt(t, a).value, b) + Branch(h, t, a)
  {
    NodeAtConcat(t, a, b);
    if b > 1 {
      DepthConcat(a, b / 2);
      NodeAtConcat(t, a, b / 2);
      BranchConcat(h, t, a, b / 2);
    }
  }

  // ---------- replacing a subtree ----------

  lemma {:induction false} SetNodeGet(h: Hasher, t: Tree, g: nat, n: Tree)
    requires NodeAt(t, g).Some?
    ensures NodeAt(SetNode(t, g, n), g) == Some(n)
    ensures Branch(h, SetNode(t, g, n), g) == Branch(h, t, g)
  {
    if g > 1 {
      var parent := NodeAt(t, g / 2).value;
      SetNodeGet(h, t, g / 2, if g % 2 == 0 then Node(n, parent.right) else Node(parent.left, n));
    }
  }

  // ---------- folding a branch ----------

  /** The two chunks hashed together at index g, in tree order. */
  function Pair(g: nat, v: Chunk, sibling: Chunk): seq<Byte> {
    if g % 2 == 0 then v + sibling else sibling + v
  }

  /** The chunk reached from v by hashing with each sibling in turn. */
  function Fold(h: Hasher, g: nat, proof: seq<Chunk>, v: Chunk): Chunk {
    if proof == [] then v else Fold(h, g / 2, proof[1..], h(Pair(g, v, proof[0])))
  }

  lemma PairInjective(g: nat, v: Chunk, s: Chunk, v': Chunk, s': Chunk)
    requires Pair(g, v, s) == Pair(g, v', s')
    ensures v == v' && s == s'
  {
    var p := Pair(g, v, s);
    assert p[..32] == (if g % 2 == 0 then v else s) && p[32..] == (if g % 2 == 0 then s else v);
    var p' := Pair(g, v', s');
    assert p'[..32] == (if g % 2 == 0 then v' else s') && p'[32..] == (if g % 2 == 0 then s' else v');
  }

  /** A genuine branch folds from its node to the root, and is as long as the index is deep. */
  lemma {:induction false} BranchFolds(h: Hasher, t: Tree, g: nat)
    requires NodeAt(t, g).Some?
    ensures |Branch(h, t, g)| == Depth(g)
    ensures Fold(h, g, Branch(h, t, g), Root(h, NodeAt(t, g).value)) == Root(h, t)
  {
    if g > 1 {
      BranchFolds(h, t, g / 2);
      var branch := Branch(h, t, g);
      assert branch[1..] == Branch(h, t, g / 2);
      var parent := NodeAt(t, g / 2).value;
      assert Pair(g, Root(h, NodeAt(t, g).value), branch[0]) == Root(h, parent.left) + Root(h, parent.right);
    }
  }

  ghost predicate IsCollision(h: Hasher, c: (seq<Byte>, seq<Byte>)) {
    c.0 != c.1 && h(c.0) == h(c.1)
  }

  /** x is one of the byte strings hashed while folding. */
  ghost predicate IsRung(h: Hasher, g: nat, proof: seq<Chunk>, v: Chunk, x: seq<Byte>) {
    proof != [] && (x == Pair(g, v, proof[0]) || IsRung(h, g / 2, proof[1..], h(Pair(g, v, proof[0])), x))
  }

  /** Walk two folds upwards together and stop where they hash different byte strings to one chunk. */
  function Clash(h: Hasher, g: nat, proof: seq<Chunk>, v: Chunk, proof': seq<Chunk>, v': Chunk): (seq<Byte>, seq<Byte>)
    requires |proof| == |proof'|
  {
    if proof == [] then ([], [])
    else
      var x, x' := Pair(g, v, proof[0]), Pair(g, v', proof'[0]);
      if x != x' && h(x) == h(x') then (x, x')
      else Clash(h, g / 2, proof[1..], h(x), proof'[1..], h(x'))
  }

  /**
    A root binds the whole branch: two folds of the same length that meet agree on every chunk, or
    the walk above stops at a collision, whose two sides were hashed by the two folds.
   */
  lemma {:induction false} FoldBinds(h: Hasher, g: nat, proof: seq<Chunk>, v: Chunk, proof': seq<Chunk>, v': Chunk)
    requires |proof| == |proof'|
    requires Fold(h, g, proof, v) == Fold(h, g, proof', v')
    ensures var c := Clash(h, g, proof, v, proof', v');
            (v == v' && proof == proof')
            || (IsCollision(h, c) && IsRung(h, g, proof, v, c.0) && IsRung(h, g, proof', v', c.1))
  {
    if proof != [] {
      var x, x' := Pair(g, v, proof[0]), Pair(g, v', proof'[0]);
      if !(x != x' && h(x) == h(x')) {
        FoldBinds(h, g / 2, proof[1..], h(x), proof'[1..], h(x'));
        if h(x) == h(x') && proof[1..] == proof'[1..] {
          PairInjective(g, v, proof[0], v', proof'[0]);
          assert proof == [proof[0]] + proof[1..] && proof' == [proof'[0]] + proof'[1..];
        }
      }
    }
  }

  /** With the siblings fixed, two values fold to one root exactly when they are equal or the walk finds a collision. */
  lemma {:induction false} FoldSameBranch(h: Hasher, g: nat, proof: seq<Chunk>, v: Chunk, v': Chunk)
    ensures Fold(h, g, proof, v) == Fold(h, g, proof, v') <==>
            v == v' || IsCollision(h, Clash(h, g, proof, v, proof, v'))
  {
    if proof != [] {
      var x, x' := Pair(g, v, proof[0]), Pair(g, v', proof[0]);
      FoldSameBranch(h, g / 2, proof[1..], h(x), h(x'));
      if x == x' {
        PairInjective(g, v, proof[0], v', proof[0]);
        FoldEqualNoClash(h, g, proof, v);
      }
    }
  }

  lemma {:induction false} FoldEqualNoClash(h: Hasher, g: nat, proof: seq<Chunk>, v: Chunk)
    ensures !IsCollision(h, Clash(h, g, proof, v, proof, v))
  {
    if proof != [] {
      FoldEqualNoClash(h, g / 2, proof[1..], h(Pair(g, v, proof[0])));
    }
  }

  // ---------- vectors as trees ----------

  /** A balanced tree of depth d over xs, padded with zero chunks. */
  function Pack(d: nat, xs: seq<Tree>): Tree
    requires |xs| <= Pow2(d)
  {
    if d == 0 then
      if |xs| == 0 then Leaf(ZERO_CHUNK) else xs[0]
    else
      var k := Min(|xs|, Pow2(d - 1));
      Node(Pack(d - 1, xs[..k]), Pack(d - 1, xs[k..]))
  }

  lemma {:induction false} LeftChildAt(t: Tree)
    ensures NodeAt(t, 2) == if t.Node? then Some(t.left) else None
  {
    assert NodeAt(t, 1) == Some(t);
  }

  function Child(t: Option<Tree>, right: bool): Option<Tree> {
    if t.Some? && t.value.Node? then Some(if right then t.value.right else t.value.left) else None
  }

  /** Node i of the 2^d nodes d levels below the root, found from the top. */
  function Down(t: Tree, d: nat, i: nat): Option<Tree>
    requires i < Pow2(d)
  {
    if d == 0 then Some(t)
    else if t.Leaf? then None
    else if i < Pow2(d - 1) then Down(t.left, d - 1, i)
    else Down(t.right, d - 1, i - Pow2(d - 1))
  }

  lemma {:induction false} DownStep(t: Tree, d: nat, i: nat)
    requires d > 0 && i < Pow2(d)
    ensures i / 2 < Pow2(d - 1) && Down(t, d, i) == Child(Down(t, d - 1, i / 2), i % 2 == 1)
  {
    if d > 1 && t.Node? {
      if i < Pow2(d - 1) {
        DownStep(t.left, d - 1, i);
      } else {
        DownStep(t.right, d - 1, i - Pow2(d - 1));
      }
    }
  }

  /** Generalized indices number the nodes of a level from 2^d on. */
  lemma {:induction false} NodeAtDown(t: Tree, d: nat, i: nat, g: nat)
    requires i < Pow2(d) && g == Pow2(d) + i
    ensures NodeAt(t, g) == Down(t, d, i)
  {
    if d > 0 {
      DownStep(t, d, i);
      assert g / 2 == Pow2(d - 1) + i / 2 && g % 2 == i % 2;
      NodeAtDown(t, d - 1, i / 2, g / 2);
      assert NodeAt(t, g) == Child(NodeAt(t, g / 2), g % 2 == 1);
    }
  }

  lemma {:induction false} PackDown(d: nat, xs: seq<Tree>, i: nat)
    requires |xs| <= Pow2(d) && i < Pow2(d)
    ensures Down(Pack(d, xs), d, i) == Some(if i < |xs| then xs[i] else Leaf(ZERO_CHUNK))
  {
    if d > 0 {
      var k := Min(|xs|, Pow2(d - 1));
      if i < Pow2(d - 1) {
        PackDown(d - 1, xs[..k], i);
      } else {
        PackDown(d - 1, xs[k..], i - Pow2(d - 1));
      }
    }
  }

  /** Element i of a packed vector sits at index 2^d + i. */
  lemma {:induction false} PackAt(d: nat, xs: seq<Tree>, i: nat, g: nat)
    requires |xs| <= Pow2(d) && i < Pow2(d) && g == Pow2(d) + i
    ensures NodeAt(Pack(d, xs), g) == Some(if i < |xs| then xs[i] else Leaf(ZERO_CHUNK))
  {
    PackDown(d, xs, i);
    NodeAtDown(Pack(d, xs), d, i, g);
  }
}
