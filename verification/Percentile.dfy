/** Sorting, order statistics and the percentile of gas fees (utils/common.ts). */
module Percentile {
  import opened Wrappers
  import opened Arithmetic

  type Fee = nat

  ghost predicate IsSorted(s: seq<Fee>) {
    forall i, j :: 0 <= i < j < |s| ==> s[i] <= s[j]
  }

  function Insert(x: Fee, s: seq<Fee>): seq<Fee> {
    if s == [] || x <= s[0] then [x] + s else [s[0]] + Insert(x, s[1..])
  }

  /** The ascending arrangement, what the array's sort leaves in it. */
  function Sorted(s: seq<Fee>): (r: seq<Fee>)
    ensures |r| == |s|
  {
    if s == [] then []
    else
      InsertLength(s[0], Sorted(s[1..]));
      Insert(s[0], Sorted(s[1..]))
  }

  lemma {:induction false} InsertLength(x: Fee, s: seq<Fee>)
    ensures |Insert(x, s)| == |s| + 1
  {
    if s != [] && x > s[0] {
      InsertLength(x, s[1..]);
    }
  }

  lemma {:induction false} InsertMultiset(x: Fee, s: seq<Fee>)
    ensures multiset(Insert(x, s)) == multiset(s) + multiset{x}
  {
    if s != [] && x > s[0] {
      InsertMultiset(x, s[1..]);
      assert s == [s[0]] + s[1..];
    }
  }

  lemma {:induction false} InsertSorted(x: Fee, s: seq<Fee>)
    requires IsSorted(s)
    ensures IsSorted(Insert(x, s))
  {
    if s != [] && x > s[0] {
      InsertSorted(x, s[1..]);
      InsertMultiset(x, s[1..]);
      var rest := Insert(x, s[1..]);
      forall j | 0 <= j < |rest| ensures s[0] <= rest[j] {
        assert rest[j] in multiset(rest);
        assert rest[j] == x || rest[j] in s[1..];
      }
    }
  }

  lemma {:induction false} SortedFacts(s: seq<Fee>)
    ensures IsSorted(Sorted(s)) && multiset(Sorted(s)) == multiset(s)
  {
    if s != [] {
      SortedFacts(s[1..]);
      InsertSorted(s[0], Sorted(s[1..]));
      InsertMultiset(s[0], Sorted(s[1..]));
      assert s == [s[0]] + s[1..];
    }
  }

  // ---------- counting ----------

  /** How many elements are at least x. */
  function CountAtLeast(s: seq<Fee>, x: Fee): (n: nat)
    ensures n <= |s|
  {
    if s == [] then 0 else (if s[0] >= x then 1 else 0) + CountAtLeast(s[1..], x)
  }

  lemma {:induction false} CountAppend(a: seq<Fee>, b: seq<Fee>, x: Fee)
    ensures CountAtLeast(a + b, x) == CountAtLeast(a, x) + CountAtLeast(b, x)
  {
    if a == [] {
      assert a + b == b;
    } else {
      assert (a + b)[1..] == a[1..] + b;
      CountAppend(a[1..], b, x);
    }
  }

  lemma {:induction false} CountInsert(v: Fee, s: seq<Fee>, x: Fee)
    ensures CountAtLeast(Insert(v, s), x) == CountAtLeast(s, x) + (if v >= x then 1 else 0)
  {
    if s == [] || v <= s[0] {
      assert Insert(v, s)[1..] == s;
    } else {
      CountInsert(v, s[1..], x);
      assert Insert(v, s)[1..] == Insert(v, s[1..]);
    }
  }

  lemma {:induction false} CountSorted(s: seq<Fee>, x: Fee)
    ensures CountAtLeast(Sorted(s), x) == CountAtLeast(s, x)
  {
    if s != [] {
      CountSorted(s[1..], x);
      CountInsert(s[0], Sorted(s[1..]), x);
    }
  }

  /** In a sorted sequence the elements that are at least x are the last ones. */
  lemma {:induction false} CountOfSorted(s: seq<Fee>, x: Fee, i: nat)
    requires IsSorted(s) && i < |s|
    ensures s[i] >= x <==> CountAtLeast(s, x) >= |s| - i
  {
    if i == 0 {
      if s[0] >= x {
        CountAll(s, x);
      }
    } else {
      CountOfSorted(s[1..], x, i - 1);
      if s[0] >= x {
        CountAll(s, x);
      }
    }
  }

  lemma {:induction false} CountAll(s: seq<Fee>, x: Fee)
    requires forall i :: 0 <= i < |s| ==> s[i] >= x
    ensures CountAtLeast(s, x) == |s|
  {
    if s != [] {
      CountAll(s[1..], x);
    }
  }

  /** Two sequences of one length have the same sorted form when they count alike at every threshold. */
  lemma {:induction false} SortedByCounts(a: seq<Fee>, b: seq<Fee>)
    requires |a| == |b| && forall x :: CountAtLeast(a, x) >= CountAtLeast(b, x)
    ensures forall i :: 0 <= i < |a| ==> Sorted(a)[i] >= Sorted(b)[i]
  {
    SortedFacts(a);
    SortedFacts(b);
    forall i | 0 <= i < |a| ensures Sorted(a)[i] >= Sorted(b)[i] {
      var x := Sorted(b)[i];
      CountOfSorted(Sorted(b), x, i);
      CountSorted(a, x);
      CountSorted(b, x);
      CountOfSorted(Sorted(a), x, i);
    }
  }

  lemma {:induction false} Without(s: seq<Fee>, k: nat, x: Fee)
    requires k < |s|
    ensures multiset(s[..k] + s[k + 1..]) == multiset(s) - multiset{s[k]}
    ensures CountAtLeast(s, x) == CountAtLeast(s[..k] + s[k + 1..], x) + (if s[k] >= x then 1 else 0)
  {
    assert s == s[..k] + ([s[k]] + s[k + 1..]);
    CountAppend(s[..k], [s[k]] + s[k + 1..], x);
    CountAppend(s[..k], s[k + 1..], x);
    assert ([s[k]] + s[k + 1..])[1..] == s[k + 1..];
  }

  lemma {:induction false} CountByMultiset(a: seq<Fee>, b: seq<Fee>, x: Fee)
    requires multiset(a) == multiset(b)
    ensures CountAtLeast(a, x) == CountAtLeast(b, x)
    decreases |a|
  {
    SameSize(a, b);
    if a != [] {
      var k := PositionOf(b, a[0]);
      var rest, tail := b[..k] + b[k + 1..], a[..0] + a[1..];
      Without(b, k, x);
      Without(a, 0, x);
      assert multiset(tail) == multiset(rest);
      CountByMultiset(tail, rest, x);
    }
  }

  lemma SameSize(a: seq<Fee>, b: seq<Fee>)
    requires multiset(a) == multiset(b)
    ensures |a| == |b| && forall i :: 0 <= i < |a| ==> a[i] in b
  {
    assert |multiset(a)| == |a| && |multiset(b)| == |b|;
    forall i | 0 <= i < |a| ensures a[i] in b {
      assert a[i] in multiset(b);
    }
  }

  lemma PositionOf(s: seq<Fee>, v: Fee) returns (k: nat)
    requires v in s
    ensures k < |s| && s[k] == v
  {
    k :| 0 <= k < |s| && s[k] == v;
  }

  /** Sorting depends on the multiset only, and is the only sorted arrangement of it. */
  lemma {:induction false} SortedCanonical(a: seq<Fee>, b: seq<Fee>)
    requires multiset(a) == multiset(b)
    ensures Sorted(a) == Sorted(b)
    ensures IsSorted(b) ==> Sorted(a) == b
  {
    assert |multiset(a)| == |a| && |multiset(b)| == |b|;
    forall x ensures CountAtLeast(a, x) == CountAtLeast(b, x) {
      CountByMultiset(a, b, x);
    }
    SortedByCounts(a, b);
    SortedByCounts(b, a);
    if IsSorted(b) {
      SortedFacts(b);
      forall i | 0 <= i < |b| ensures Sorted(b)[i] == b[i] {
        CountOfSorted(b, b[i], i);
        CountSorted(b, b[i]);
        CountOfSorted(Sorted(b), b[i], i);
        var x := Sorted(b)[i];
        CountOfSorted(Sorted(b), x, i);
        CountSorted(b, x);
        CountOfSorted(b, x, i);
      }
    }
  }

  // ---------- the percentile ----------

  /** Floor and ceiling of the exact index p/100 * (n - 1). */
  function Lower(n: nat, p: int): int {
    p * (n - 1) / 100
  }

  function Upper(n: nat, p: int): int {
    if p * (n - 1) % 100 == 0 then Lower(n, p) else Lower(n, p) + 1
  }

  /**
    The percentile of sorted values: the one at the index, or the halved sum of its two neighbours.
    An index outside the array reads undefined, which no later step survives.
   */
  function At(sorted: seq<Fee>, p: int): Option<Fee> {
    var lower, upper := Lower(|sorted|, p), Upper(|sorted|, p);
    if lower < 0 || upper >= |sorted| then None
    else if lower == upper then Some(sorted[lower])
    else Some((sorted[lower] + sorted[upper]) / 2)
  }

  /** The script's percentile, which sorts a copy. */
  function CalculatePercentile(values: seq<Fee>, p: int): Option<Fee> {
    At(Sorted(values), p)
  }

  /** Sorts the caller's array and reads the percentile from it. */
  method PercentileInPlace(arr: array<Fee>, p: int) returns (r: Option<Fee>)
    modifies arr
    ensures arr[..] == Sorted(old(arr[..]))
    ensures r == CalculatePercentile(old(arr[..]), p)
  {
    var sorted := Sorted(arr[..]);
    forall i | 0 <= i < arr.Length {
      arr[i] := sorted[i];
    }
    assert arr[..] == sorted;
    var scaled := p * (arr.Length - 1);
    var lower := scaled / 100;
    if scaled % 100 == 0 {
      return if 0 <= lower < arr.Length then Some(arr[lower]) else None;
    }
    var upper := lower + 1;
    if lower < 0 || upper >= arr.Length {
      return None;
    }
    return Some((arr[lower] + arr[upper]) / 2);
  }

  lemma IndexBounds(n: nat, p: int)
    requires n > 0 && 0 <= p <= 100
    ensures 0 <= Lower(n, p) <= Upper(n, p) < n
    ensures Upper(n, p) <= Lower(n, p) + 1
  {
    MulMonotone(0, p, n - 1);
    MulMonotone(p, 100, n - 1);
  }

  lemma IndexMonotone(n: nat, p: int, q: int)
    requires n > 0 && p <= q
    ensures Lower(n, p) <= Lower(n, q) && Upper(n, p) <= Upper(n, q)
  {
    MulMonotone(p, q, n - 1);
  }

  /** On a non-empty array and a percentile within 0..100 there is a value, between the adjacent order statistics. */
  lemma {:induction false} PercentileBetween(s: seq<Fee>, p: int)
    requires s != [] && 0 <= p <= 100
    ensures 0 <= Lower(|s|, p) <= Upper(|s|, p) < |s|
    ensures At(Sorted(s), p).Some?
    ensures Sorted(s)[Lower(|s|, p)] <= At(Sorted(s), p).value <= Sorted(s)[Upper(|s|, p)]
  {
    IndexBounds(|s|, p);
    SortedFacts(s);
  }

  /**
    With l the whole part of x hundredths, where x is p times n - 1: the value is the l-th smallest if
    nothing is left over, and otherwise half the sum of the l-th and the next, rounded down.
   */
  lemma {:induction false} PercentileExact(s: seq<Fee>, p: int, x: int, l: nat, v: Fee)
    requires s != [] && 0 <= p <= 100 && x == p * (|s| - 1) && 100 * l <= x < 100 * l + 100
    ensures l < |s| && (100 * l < x ==> l + 1 < |s|)
    ensures CalculatePercentile(s, p) == Some(v) <==>
            if x == 100 * l then v == Sorted(s)[l]
            else 2 * v <= Sorted(s)[l] + Sorted(s)[l + 1] <= 2 * v + 1
  {
    IndexExact(|s|, p, x, l);
    AtExact(Sorted(s), p, l, x == 100 * l, v);
  }

  lemma IndexExact(n: nat, p: int, x: int, l: nat)
    requires n > 0 && 0 <= p <= 100 && x == p * (n - 1) && 100 * l <= x < 100 * l + 100
    ensures Lower(n, p) == l && Upper(n, p) == (if x == 100 * l then l else l + 1) < n
  {
    IndexBounds(n, p);
    DivModUnique(x, 100, l, x - 100 * l);
  }

  lemma AtExact(sorted: seq<Fee>, p: int, l: nat, whole: bool, v: Fee)
    requires Lower(|sorted|, p) == l && Upper(|sorted|, p) == (if whole then l else l + 1) < |sorted|
    ensures At(sorted, p) == Some(v) <==>
            if whole then v == sorted[l] else 2 * v <= sorted[l] + sorted[l + 1] <= 2 * v + 1
  {
  }

  /** A higher percentile is no smaller. */
  lemma {:induction false} PercentileMonotoneInP(s: seq<Fee>, p: int, q: int)
    requires s != [] && 0 <= p <= q <= 100
    ensures At(Sorted(s), p).Some? && At(Sorted(s), q).Some? && At(Sorted(s), p).value <= At(Sorted(s), q).value
  {
    var v, n := Sorted(s), |s|;
    PercentileBetween(s, p);
    PercentileBetween(s, q);
    IndexMonotone(n, p, q);
    SortedFacts(s);
    assert v[Lower(n, p)] <= v[Lower(n, q)] && v[Upper(n, p)] <= v[Upper(n, q)];
  }

  /** Raising the order statistics does not lower the percentile. */
  lemma {:induction false} PercentileMonotoneInValues(a: seq<Fee>, b: seq<Fee>, p: int)
    requires |a| == |b| && forall i :: 0 <= i < |a| ==> Sorted(a)[i] >= Sorted(b)[i]
    ensures At(Sorted(a), p).Some? <==> At(Sorted(b), p).Some?
    ensures At(Sorted(a), p).Some? ==> At(Sorted(a), p).value >= At(Sorted(b), p).value
  {
  }

  /** Raising values pointwise raises every order statistic. */
  lemma {:induction false} CountPointwise(a: seq<Fee>, b: seq<Fee>, x: Fee)
    requires |a| == |b| && forall i :: 0 <= i < |a| ==> a[i] >= b[i]
    ensures CountAtLeast(a, x) >= CountAtLeast(b, x)
  {
    if a != [] {
      CountPointwise(a[1..], b[1..], x);
    }
  }

  lemma {:induction false} PercentileMonotonePointwise(a: seq<Fee>, b: seq<Fee>, p: int)
    requires |a| == |b| && forall i :: 0 <= i < |a| ==> a[i] >= b[i]
    ensures At(Sorted(a), p).Some? <==> At(Sorted(b), p).Some?
    ensures At(Sorted(a), p).Some? ==> At(Sorted(a), p).value >= At(Sorted(b), p).value
  {
    forall x ensures CountAtLeast(a, x) >= CountAtLeast(b, x) {
      CountPointwise(a, b, x);
    }
    SortedByCounts(a, b);
    PercentileMonotoneInValues(a, b, p);
  }
}
