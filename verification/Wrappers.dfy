/** Result types shared by the model, and powers of two. */
module Wrappers {

  datatype Option<+T> = None | Some(value: T)

  /** The answer of something outside the program: a value, or an exception. */
  datatype Answer<+T> = Fails | Reply(value: T)
}

/** Selecting elements of a sequence in order. */
module Selection {

  /** These positions are in order, each once, and below n. */
  ghost predicate Positions(ps: seq<nat>, n: nat) {
    (forall j :: 0 <= j < |ps| ==> ps[j] < n) && forall i, j :: 0 <= i < j < |ps| ==> ps[i] < ps[j]
  }

  lemma PositionsAppend(ps: seq<nat>, n: nat)
    requires Positions(ps, n)
    ensures Positions(ps, n + 1) && Positions(ps + [n], n + 1)
  {
  }

  lemma PositionsPrepend(i: nat, ps: seq<nat>, n: nat)
    requires Positions(ps, n) && i < n && forall p :: p in ps ==> i < p
    ensures Positions([i] + ps, n) && forall p :: p in [i] + ps <==> p == i || p in ps
  {
    forall j | 0 < j < |[i] + ps| ensures i < ([i] + ps)[j] {
      assert ps[j - 1] in ps;
    }
  }
}

/** Powers of two, and division facts that the solver does not find on its own. */
module Arithmetic {

  function Pow2(n: nat): (p: nat)
    ensures p >= 1
  {
    if n == 0 then 1 else 2 * Pow2(n - 1)
  }

  function Pow(b: nat, n: nat): nat {
    if n == 0 then 1 else b * Pow(b, n - 1)
  }

  function Min(a: int, b: int): int {
    if a < b then a else b
  }

  function Max(a: int, b: int): int {
    if a < b then b else a
  }

  lemma MulMonotone(a: int, b: int, d: int)
    requires a <= b && 0 <= d
    ensures a * d <= b * d
  {
    assert (b - a) * d >= 0;
  }

  lemma MulDouble(a: int, b: int)
    ensures a * (2 * b) == 2 * (a * b)
  {
  }

  lemma Distribute(a: int, b: int, d: int)
    ensures (a + b) * d == a * d + b * d
  {
  }

  lemma EuclidUnique(q: int, r: int, q': int, r': int, d: int)
    requires 0 <= r < d && 0 <= r' < d && q * d + r == q' * d + r'
    ensures q == q' && r == r'
  {
    if q < q' {
      MulMonotone(q + 1, q', d);
    } else if q' < q {
      MulMonotone(q' + 1, q, d);
    }
  }

  lemma DivModUnique(x: int, d: int, q: int, r: int)
    requires d > 0 && 0 <= r < d && x == q * d + r
    ensures x / d == q && x % d == r
  {
    EuclidUnique(q, r, x / d, x % d, d);
  }

  /** Adding a multiple of the divisor shifts the quotient and keeps the remainder. */
  lemma DivModShift(x: int, d: int, k: int)
    requires d > 0
    ensures (x + k * d) / d == x / d + k && (x + k * d) % d == x % d
  {
    assert x == (x / d) * d + x % d;
    assert (x / d + k) * d == (x / d) * d + k * d;
    DivModUnique(x + k * d, d, x / d + k, x % d);
  }

  /** The quotient is the greatest multiplier that fits. */
  lemma DivBounds(x: int, d: int)
    requires d > 0
    ensures (x / d) * d <= x < (x / d + 1) * d
  {
    assert x == (x / d) * d + x % d;
  }

  lemma DivMonotone(x: int, y: int, d: int)
    requires d > 0 && x <= y
    ensures x / d <= y / d
  {
    DivBounds(x, d);
    DivBounds(y, d);
    var p, q := x / d, y / d;
    if p > q {
      MulMonotone(q + 1, p, d);
    }
  }

  /** How quotient and remainder move when the dividend grows by one. */
  lemma DivModStep(x: int, d: int)
    requires d > 0
    ensures x % d == d - 1 ==> (x + 1) / d == x / d + 1 && (x + 1) % d == 0
    ensures x % d < d - 1 ==> (x + 1) / d == x / d && (x + 1) % d == x % d + 1
  {
    assert x == (x / d) * d + x % d;
    if x % d == d - 1 {
      assert (x / d + 1) * d == (x / d) * d + d;
      DivModUnique(x + 1, d, x / d + 1, 0);
    } else {
      DivModUnique(x + 1, d, x / d, x % d + 1);
    }
  }
}

/** Iteration over sets. */
module Enumeration {

  /** The elements of a set in an arbitrary order, as a Map's iteration gives its keys. */
  method Enumerate<T(==)>(s: set<T>) returns (order: seq<T>)
    ensures forall d :: d in order <==> d in s
    ensures forall i, j :: 0 <= i < j < |order| ==> order[i] != order[j]
  {
    var rest := s;
    order := [];
    while rest != {}
      invariant forall d :: d in order || d in rest <==> d in s
      invariant forall d :: d in rest ==> d !in order
      invariant forall i, j :: 0 <= i < j < |order| ==> order[i] != order[j]
      decreases rest
    {
      var d :| d in rest;
      order := order + [d];
      rest := rest - {d};
    }
  }
}
