/** Fetching base fees block by block, and the bounded cache of them. */
module FeeHistory {
  import opened Wrappers
  import opened Arithmetic
  import opened Percentile

  // ---------- fetching ----------

  /** What eth_feeHistory gives for `count` blocks up to `newest`: their base fees, and that of the next block. */
  function FeeHistoryOf(fee: int -> Fee, count: nat, newest: int): seq<Fee> {
    seq(count + 1, i => fee(newest - count + 1 + i))
  }

  /** The block whose fee the bot has at position i of `total`. */
  function BotBlock(latest: int, total: int, cap: nat, i: nat): int
    requires cap >= 1
  {
    var age := total - 1 - i;
    latest - age + age / cap
  }

  /** The block whose fee the script has at position i of `total`. */
  function ScriptBlock(latest: int, total: int, i: nat): int {
    latest - (total - 1 - i)
  }

  /** How many requests fetching takes. */
  function Requests(total: int, cap: nat): nat
    requires cap >= 1
  {
    if total <= 0 then 0 else (total - 1) / cap + 1
  }

  /** Where request j of the bot starts, looking backwards. */
  lemma BatchAge(cap: nat, j: nat, r: nat)
    requires r < cap
    ensures (j * cap + r) / cap == j
  {
    DivModUnique(j * cap + r, cap, j, r);
  }

  lemma RequestBound(total: int, cap: nat, j: nat)
    requires cap >= 1 && j * cap < total
    ensures j < Requests(total, cap)
    ensures total - j * cap <= cap ==> j + 1 == Requests(total, cap)
  {
    DivMonotone(j * cap, total - 1, cap);
    DivModUnique(j * cap, cap, j, 0);
    if total - j * cap <= cap {
      DivModUnique(total - 1, cap, j, total - 1 - j * cap);
    }
  }

  /** A further batch in front keeps every position at its block. */
  lemma BatchPrepended(fee: int -> Fee, latest: int, cap: nat, request: nat, before: seq<Fee>, count: nat)
    requires 1 <= count <= cap && |before| == request * cap
    requires forall i :: 0 <= i < |before| ==> before[i] == fee(BotBlock(latest, |before|, cap, i))
    ensures var after := FeeHistoryOf(fee, count, latest - request * (cap - 1))[..count] + before;
            forall i :: 0 <= i < |after| ==> after[i] == fee(BotBlock(latest, |after|, cap, i))
  {
    var after := FeeHistoryOf(fee, count, latest - request * (cap - 1))[..count] + before;
    forall i | 0 <= i < |after| ensures after[i] == fee(BotBlock(latest, |after|, cap, i)) {
      if i < count {
        var r := count - 1 - i;
        BatchAge(cap, request, r);
        assert request * (cap - 1) == request * cap - request;
      } else {
        assert after[i] == before[i - count];
        assert BotBlock(latest, |after|, cap, i) == BotBlock(latest, |before|, cap, i - count);
      }
    }
  }

  /** The bot's loop, which moves the newest block back by one less than the batch. */
  method FetchGasFeeHistory(fee: int -> Fee, replies: nat -> bool, latestBlockNumber: int, totalBlocksToFetch: int,
                            cap: nat)
    returns (r: Option<seq<Fee>>)
    requires cap >= 1
    ensures r.None? <==> exists k: nat :: k < Requests(totalBlocksToFetch, cap) && !replies(k)
    ensures r.Some? ==> |r.value| == Max(totalBlocksToFetch, 0)
                        && forall i :: 0 <= i < |r.value| ==>
                             r.value[i] == fee(BotBlock(latestBlockNumber, totalBlocksToFetch, cap, i))
  {
    var newGasFees: seq<Fee> := [];
    var latestBlockToRequest, remainingBlocks := latestBlockNumber, totalBlocksToFetch;
    var request: nat := 0;
    while remainingBlocks > 0
      invariant totalBlocksToFetch <= 0 ==> newGasFees == [] && request == 0
      invariant totalBlocksToFetch > 0 ==> remainingBlocks >= 0
      invariant totalBlocksToFetch > 0 ==> remainingBlocks + |newGasFees| == totalBlocksToFetch
      invariant remainingBlocks > 0 ==> |newGasFees| == request * cap
      invariant remainingBlocks > 0 ==> latestBlockToRequest == latestBlockNumber - request * (cap - 1)
      invariant remainingBlocks <= 0 && totalBlocksToFetch > 0 ==> request == Requests(totalBlocksToFetch, cap)
      invariant forall k: nat :: k < request ==> replies(k)
      invariant forall i :: 0 <= i < |newGasFees| ==>
                newGasFees[i] == fee(BotBlock(latestBlockNumber, |newGasFees|, cap, i))
      decreases remainingBlocks
    {
      var currentBatchSize := Min(remainingBlocks, cap);
      RequestBound(totalBlocksToFetch, cap, request);
      if !replies(request) {
        return None;
      }
      var stats := FeeHistoryOf(fee, currentBatchSize, latestBlockToRequest);
      var batchFees := stats[..|stats| - 1];
      ghost var before := newGasFees;
      newGasFees := batchFees + newGasFees;
      BatchPrepended(fee, latestBlockNumber, cap, request, before, currentBatchSize);
      latestBlockToRequest := latestBlockToRequest - (currentBatchSize - 1);
      remainingBlocks := remainingBlocks - currentBatchSize;
      Distribute(request, 1, cap);
      Distribute(request, 1, cap - 1);
      request := request + 1;
    }
    return Some(newGasFees);
  }

  /** The script's loop, which moves the newest block back by the whole batch. */
  method ScriptFetchGasFeeHistory(fee: int -> Fee, replies: nat -> bool, latestBlockNumber: int,
                                  totalBlocksToFetch: int, cap: nat)
    returns (r: Option<seq<Fee>>)
    requires cap >= 1
    ensures r.None? <==> exists k: nat :: k < Requests(totalBlocksToFetch, cap) && !replies(k)
    ensures r.Some? ==> |r.value| == Max(totalBlocksToFetch, 0)
                        && forall i :: 0 <= i < |r.value| ==>
                             r.value[i] == fee(ScriptBlock(latestBlockNumber, totalBlocksToFetch, i))
  {
    var allGasFees: seq<Fee> := [];
    var remainingBlocks, latestBlockToRequest := totalBlocksToFetch, latestBlockNumber;
    var request: nat := 0;
    while remainingBlocks > 0
      invariant totalBlocksToFetch <= 0 ==> allGasFees == [] && request == 0
      invariant totalBlocksToFetch > 0 ==> remainingBlocks >= 0
      invariant totalBlocksToFetch > 0 ==> remainingBlocks + |allGasFees| == totalBlocksToFetch
      invariant latestBlockToRequest == latestBlockNumber - |allGasFees|
      invariant remainingBlocks > 0 ==> |allGasFees| == request * cap
      invariant remainingBlocks <= 0 && totalBlocksToFetch > 0 ==> request == Requests(totalBlocksToFetch, cap)
      invariant forall k: nat :: k < request ==> replies(k)
      invariant forall i :: 0 <= i < |allGasFees| ==>
                allGasFees[i] == fee(ScriptBlock(latestBlockNumber, |allGasFees|, i))
      decreases remainingBlocks
    {
      var currentBatchSize := Min(remainingBlocks, cap);
      RequestBound(totalBlocksToFetch, cap, request);
      if !replies(request) {
        return None;
      }
      var stats := FeeHistoryOf(fee, currentBatchSize, latestBlockToRequest);
      allGasFees := stats[..|stats| - 1] + allGasFees;
      latestBlockToRequest := latestBlockToRequest - currentBatchSize;
      remainingBlocks := remainingBlocks - currentBatchSize;
      Distribute(request, 1, cap);
      request := request + 1;
    }
    return Some(allGasFees);
  }

  /**
    The bot's positions run through consecutive blocks up to the latest, except that the block at
    the boundary of two requests comes twice: `total` values cover total - requests + 1 blocks.
   */
  lemma BotWindow(latest: int, total: nat, cap: nat, i: nat)
    requires cap >= 1 && i < total
    ensures BotBlock(latest, total, cap, total - 1) == latest
    ensures BotBlock(latest, total, cap, 0) == latest - (total - Requests(total, cap) + 1) + 1
    ensures i + 1 < total ==> BotBlock(latest, total, cap, i + 1) ==
                              BotBlock(latest, total, cap, i) + (if (total - 1 - i) % cap == 0 then 0 else 1)
  {
    DivModUnique(0, cap, 0, 0);
    DivModStep(total - 1 - i - 1, cap);
    if cap == 1 {
      DivModUnique(total - 1 - i, 1, total - 1 - i, 0);
    }
  }

  /** With requests of at least two blocks, a block comes at two positions only if these straddle a request boundary. */
  lemma BotBlockTwice(latest: int, total: nat, cap: nat, i: nat, j: nat)
    requires cap >= 2 && i < j < total
    ensures BotBlock(latest, total, cap, i) == BotBlock(latest, total, cap, j) <==>
            j == i + 1 && (total - 1 - i) % cap == 0
  {
    BotWindow(latest, total, cap, i);
    var a, b := total - 1 - i, total - 1 - j;
    if j > i + 1 {
      QuotientGrowth(b, a - b, cap);
    }
  }

  lemma QuotientGrowth(b: nat, n: nat, cap: nat)
    requires cap >= 2 && n >= 2
    ensures (b + n) / cap < b / cap + n
  {
    var q, r := b / cap, b % cap;
    assert b == q * cap + r;
    MulMonotone(2, cap, n - 1);
    Distribute(q, n, cap);
    Distribute(n - 1, 1, cap);
    DivBounds(b + n, cap);
    if (b + n) / cap >= q + n {
      MulMonotone(q + n, (b + n) / cap, cap);
    }
  }

  /** The two programs look at the same blocks exactly when one request suffices. */
  lemma BotAgreesWithScript(latest: int, total: nat, cap: nat)
    requires cap >= 1
    ensures (forall i: nat :: i < total ==> BotBlock(latest, total, cap, i) == ScriptBlock(latest, total, i)) <==>
            total <= cap
  {
    if total <= cap {
      forall i: nat | i < total ensures BotBlock(latest, total, cap, i) == ScriptBlock(latest, total, i) {
        DivModUnique(total - 1 - i, cap, 0, total - 1 - i);
      }
    } else {
      DivMonotone(cap, total - 1, cap);
      DivModUnique(cap, cap, 1, 0);
      assert BotBlock(latest, total, cap, 0) != ScriptBlock(latest, total, 0);
    }
  }

  // ---------- the cache ----------

  /** Drop as many values from the front as arrive, then append the new ones. */
  function UpdateCache(cache: seq<Fee>, fees: seq<Fee>): (r: seq<Fee>)
    ensures |r| == Max(|cache|, |fees|)
  {
    (if |cache| > |fees| then cache[|fees|..] else []) + fees
  }

  /** At every threshold the first has at least as many values that reach it. */
  ghost predicate Dominates(a: seq<Fee>, b: seq<Fee>) {
    |a| == |b| && forall x :: CountAtLeast(a, x) >= CountAtLeast(b, x)
  }

  lemma {:induction false} DropSorted(s: seq<Fee>, k: nat, x: Fee)
    requires IsSorted(s) && k <= |s|
    ensures CountAtLeast(s[k..], x) == Min(CountAtLeast(s, x), |s| - k)
  {
    if k > 0 {
      assert s[1..][k - 1..] == s[k..];
      DropSorted(s[1..], k - 1, x);
      if s[0] >= x {
        CountAll(s, x);
      }
    }
  }

  lemma {:induction false} DropAny(s: seq<Fee>, k: nat, x: Fee)
    requires k <= |s|
    ensures CountAtLeast(s[k..], x) <= Min(CountAtLeast(s, x), |s| - k)
  {
    if k > 0 {
      assert s[1..][k - 1..] == s[k..];
      DropAny(s[1..], k - 1, x);
    }
  }

  /** Evicting from a sorted cache drops the smallest fees, so it stays above a window that drops the oldest. */
  lemma UpdateDominates(cache: seq<Fee>, window: seq<Fee>, fees: seq<Fee>)
    requires IsSorted(cache) && Dominates(cache, window)
    ensures Dominates(UpdateCache(cache, fees), UpdateCache(window, fees))
    ensures Dominates(Sorted(UpdateCache(cache, fees)), UpdateCache(window, fees))
  {
    var k := |fees|;
    forall x ensures CountAtLeast(UpdateCache(cache, fees), x) >= CountAtLeast(UpdateCache(window, fees), x) {
      if |cache| > k {
        DropSorted(cache, k, x);
        DropAny(window, k, x);
        CountAppend(cache[k..], fees, x);
        CountAppend(window[k..], fees, x);
      }
    }
    forall x ensures CountAtLeast(Sorted(UpdateCache(cache, fees)), x) == CountAtLeast(UpdateCache(cache, fees), x) {
      CountSorted(UpdateCache(cache, fees), x);
    }
  }

  /** The cache after these batches, sorted by the percentile after each of them. */
  function CacheAfter(batches: seq<seq<Fee>>): seq<Fee> {
    if batches == [] then []
    else Sorted(UpdateCache(CacheAfter(batches[..|batches| - 1]), batches[|batches| - 1]))
  }

  /** A window that drops its oldest values instead. */
  function WindowAfter(batches: seq<seq<Fee>>): seq<Fee> {
    if batches == [] then []
    else UpdateCache(WindowAfter(batches[..|batches| - 1]), batches[|batches| - 1])
  }

  lemma {:induction false} CacheDominatesWindow(batches: seq<seq<Fee>>)
    ensures IsSorted(CacheAfter(batches)) && Dominates(CacheAfter(batches), WindowAfter(batches))
  {
    if batches != [] {
      var earlier := batches[..|batches| - 1];
      CacheDominatesWindow(earlier);
      UpdateDominates(CacheAfter(earlier), WindowAfter(earlier), batches[|batches| - 1]);
      SortedFacts(UpdateCache(CacheAfter(earlier), batches[|batches| - 1]));
    }
  }

  /**
    Over every run, the i-th smallest cached fee is at least the window's, and so the recommended
    fee is never below the sliding-window percentile.
   */
  lemma {:induction false} RecommendedNotBelowWindow(batches: seq<seq<Fee>>, p: int)
    ensures |CacheAfter(batches)| == |WindowAfter(batches)|
    ensures forall i :: 0 <= i < |CacheAfter(batches)| ==>
            Sorted(CacheAfter(batches))[i] >= Sorted(WindowAfter(batches))[i]
    ensures At(Sorted(CacheAfter(batches)), p).Some? <==> At(Sorted(WindowAfter(batches)), p).Some?
    ensures At(Sorted(CacheAfter(batches)), p).Some? ==>
              At(Sorted(CacheAfter(batches)), p).value >= At(Sorted(WindowAfter(batches)), p).value
  {
    CacheDominatesWindow(batches);
    SortedByCounts(CacheAfter(batches), WindowAfter(batches));
    PercentileMonotoneInValues(CacheAfter(batches), WindowAfter(batches), p);
  }

  /** A run in which the recommendation is strictly above the sliding window's. */
  lemma RecommendedAboveWindow()
    ensures var batches := [[5, 1], [3]];
            At(Sorted(CacheAfter(batches)), 50) == Some(4) && At(Sorted(WindowAfter(batches)), 50) == Some(2)
  {
    var batches: seq<seq<Fee>> := [[5, 1], [3]];
    var none: seq<Fee> := [];
    var start: seq<seq<Fee>> := [[5, 1]];
    assert batches[..1] == start && start[..0] == [];
    assert UpdateCache(none, [5, 1]) == [5, 1];
    SortedPair(5, 1);
    assert CacheAfter(start) == [1, 5] && WindowAfter(start) == [5, 1];
    assert UpdateCache([1, 5], [3]) == [5, 3] && UpdateCache([5, 1], [3]) == [1, 3];
    SortedPair(5, 3);
    SortedPair(3, 5);
    SortedPair(1, 3);
  }

  lemma SortedPair(a: Fee, b: Fee)
    ensures Sorted([a, b]) == if a <= b then [a, b] else [b, a]
  {
    var r := if a <= b then [a, b] else [b, a];
    assert multiset([a, b]) == multiset(r);
    SortedCanonical([a, b], r);
  }

  /**
    Evicting k values from the sorted cache leaves what the drop-oldest window keeps exactly when
    none of the k oldest fees is above any of the others.
   */
  lemma {:induction false} EvictionExact(window: seq<Fee>, k: nat)
    requires k <= |window|
    ensures multiset(Sorted(window)[k..]) == multiset(window[k..]) <==>
            forall x, y :: x in window[..k] && y in window[k..] ==> x <= y
  {
    var oldest, young := window[..k], window[k..];
    assert window == oldest + young;
    if multiset(Sorted(window)[k..]) == multiset(young) {
      SmallestEvicted(oldest, young);
    }
    if forall x, y :: x in oldest && y in young ==> x <= y {
      SortedJoin(oldest, young);
      assert Sorted(window)[k..] == Sorted(young);
      SortedFacts(young);
    }
  }

  lemma {:induction false} SmallestEvicted(oldest: seq<Fee>, young: seq<Fee>)
    requires multiset(Sorted(oldest + young)[|oldest|..]) == multiset(young)
    ensures forall x, y :: x in oldest && y in young ==> x <= y
  {
    var sorted, k := Sorted(oldest + young), |oldest|;
    SortedFacts(oldest + young);
    assert multiset(oldest + young) == multiset(oldest) + multiset(young);
    HalvesOrdered(sorted, k, oldest, young);
  }

  lemma HalvesOrdered(sorted: seq<Fee>, k: nat, oldest: seq<Fee>, young: seq<Fee>)
    requires IsSorted(sorted) && k <= |sorted|
    requires multiset(sorted) == multiset(oldest) + multiset(young) && multiset(sorted[k..]) == multiset(young)
    ensures forall x, y :: x in oldest && y in young ==> x <= y
  {
    var low, high := sorted[..k], sorted[k..];
    assert sorted == low + high;
    Cancel(multiset(low), multiset(oldest), multiset(high));
    forall x, y | x in oldest && y in young ensures x <= y {
      OccursIn(oldest, low, x);
      OccursIn(young, high, y);
      var i := PositionOf(low, x);
      var j := PositionOf(high, y);
      assert sorted[i] == x && sorted[k + j] == y;
    }
  }

  lemma Cancel(a: multiset<Fee>, b: multiset<Fee>, c: multiset<Fee>)
    requires a + c == b + c
    ensures a == b
  {
    assert a == (a + c) - c && b == (b + c) - c;
  }

  lemma OccursIn(a: seq<Fee>, b: seq<Fee>, x: Fee)
    requires multiset(a) == multiset(b) && x in a
    ensures x in b
  {
    assert x in multiset(a);
  }

  lemma {:induction false} SortedJoin(low: seq<Fee>, high: seq<Fee>)
    requires forall x, y :: x in low && y in high ==> x <= y
    ensures Sorted(low + high) == Sorted(low) + Sorted(high)
  {
    SortedFacts(low);
    SortedFacts(high);
    var joined := Sorted(low) + Sorted(high);
    forall i | 0 <= i < |low| ensures joined[i] in low {
      assert joined[i] in multiset(Sorted(low));
    }
    forall j | |low| <= j < |joined| ensures joined[j] in high {
      assert joined[j] in multiset(Sorted(high));
    }
    SortedCanonical(low + high, joined);
  }
}
