/** Splitting block ranges and witness lists (createBatches, createValidatorBatches). */
module Batches {
  import opened Arithmetic

  datatype Range = Range(from: int, to: int)

  /**
    Non-empty contiguous ranges of at most batchSize blocks that cover first..last, each block once
    and in order.
   */
  ghost predicate Partitions(batches: seq<Range>, first: int, last: int, batchSize: int) {
    && batches != [] && batches[0].from == first && batches[|batches| - 1].to == last
    && (forall i :: 0 <= i < |batches| ==> batches[i].from <= batches[i].to < batches[i].from + batchSize)
    && (forall i :: 0 < i < |batches| ==> batches[i].from == batches[i - 1].to + 1)
    && (forall i :: 0 <= i < |batches| - 1 ==> batches[i].to == batches[i].from + batchSize - 1)
  }

  lemma PartitionAppend(batches: seq<Range>, first: int, next: int, to: int, batchSize: int)
    requires batchSize >= 1 && next <= to < next + batchSize
    requires if batches == [] then next == first
             else Partitions(batches, first, next - 1, batchSize)
                  && batches[|batches| - 1].to == batches[|batches| - 1].from + batchSize - 1
    ensures Partitions(batches + [Range(next, to)], first, to, batchSize)
  {
  }

  method CreateBatches(fromBlock: int, toBlock: int, batchSize: int) returns (batches: seq<Range>)
    requires batchSize >= 1
    ensures fromBlock <= toBlock ==> Partitions(batches, fromBlock, toBlock, batchSize)
    ensures fromBlock > toBlock ==> batches == [Range(fromBlock, toBlock)]
  {
    var blockRange := toBlock - fromBlock;
    batches := [];
    if blockRange < batchSize {
      batches := batches + [Range(fromBlock, toBlock)];
    } else {
      var currentFrom := fromBlock;
      while currentFrom <= toBlock
        invariant currentFrom <= toBlock + 1
        invariant batches == [] ==> currentFrom == fromBlock
        invariant batches != [] ==> Partitions(batches, fromBlock, currentFrom - 1, batchSize)
        invariant currentFrom <= toBlock && batches != [] ==>
                    batches[|batches| - 1].to == batches[|batches| - 1].from + batchSize - 1
      {
        var currentTo := Min(currentFrom + batchSize - 1, toBlock);
        PartitionAppend(batches, fromBlock, currentFrom, currentTo, batchSize);
        batches := batches + [Range(currentFrom, currentTo)];
        currentFrom := currentTo + 1;
      }
    }
  }

  /** The partition is unique, so the single-batch branch yields what the loop would. */
  lemma PartitionUnique(a: seq<Range>, b: seq<Range>, first: int, last: int, batchSize: int)
    requires batchSize >= 1
    requires Partitions(a, first, last, batchSize) && Partitions(b, first, last, batchSize)
    ensures a == b
  {
    var m, n := |a| - 1, |b| - 1;
    PartitionOrdered(a, first, last, batchSize, m);
    PartitionOrdered(b, first, last, batchSize, n);
    Distribute(m, 1, batchSize);
    Distribute(n, 1, batchSize);
    EuclidUnique(m, last - first - m * batchSize, n, last - first - n * batchSize, batchSize);
    forall k | 0 <= k < |a| ensures a[k] == b[k] {
      PartitionOrdered(a, first, last, batchSize, k);
      PartitionOrdered(b, first, last, batchSize, k);
    }
  }

  /** The k-th range starts k batch sizes after the first block. */
  lemma {:induction false} PartitionOrdered(batches: seq<Range>, first: int, last: int, batchSize: int, k: nat)
    requires batchSize >= 1 && Partitions(batches, first, last, batchSize) && k < |batches|
    ensures batches[k].from == first + k * batchSize
    ensures batches[k].to == if k == |batches| - 1 then last else first + (k + 1) * batchSize - 1
    ensures first + (|batches| - 1) * batchSize <= last < first + |batches| * batchSize
  {
    PartitionStart(batches, first, last, batchSize, k);
    PartitionStart(batches, first, last, batchSize, |batches| - 1);
    Distribute(k, 1, batchSize);
    Distribute(|batches| - 1, 1, batchSize);
  }

  lemma {:induction false} PartitionStart(batches: seq<Range>, first: int, last: int, batchSize: int, k: nat)
    requires batchSize >= 1 && Partitions(batches, first, last, batchSize) && k < |batches|
    ensures batches[k].from == first + k * batchSize
  {
    if k > 0 {
      PartitionStart(batches, first, last, batchSize, k - 1);
      Distribute(k - 1, 1, batchSize);
    }
  }

  /** Some range of the list holds the block. */
  ghost predicate Covered(ranges: seq<Range>, b: int) {
    exists i :: 0 <= i < |ranges| && ranges[i].from <= b <= ranges[i].to
  }

  /** No range reaches outside the blocks that are partitioned. */
  lemma CoveredWithin(batches: seq<Range>, first: int, last: int, batchSize: int, n: nat, b: int)
    requires batchSize >= 1 && Partitions(batches, first, last, batchSize) && n <= |batches| && Covered(batches[..n], b)
    ensures first <= b <= last
  {
    var i :| 0 <= i < |batches[..n]| && batches[..n][i].from <= b <= batches[..n][i].to;
    PartitionOrdered(batches, first, last, batchSize, i);
    MulMonotone(0, i, batchSize);
    if i < |batches| - 1 {
      MulMonotone(i + 1, |batches| - 1, batchSize);
    }
  }

  /** Every block of the range lies in exactly one batch. */
  lemma BlockInOneBatch(batches: seq<Range>, first: int, last: int, batchSize: int, b: int) returns (k: nat)
    requires batchSize >= 1 && Partitions(batches, first, last, batchSize) && first <= b <= last
    ensures k < |batches| && batches[k].from <= b <= batches[k].to
    ensures forall i :: 0 <= i < |batches| && batches[i].from <= b <= batches[i].to ==> i == k
  {
    k := (b - first) / batchSize;
    DivBounds(b - first, batchSize);
    PartitionOrdered(batches, first, last, batchSize, 0);
    if k >= |batches| {
      MulMonotone(|batches|, k, batchSize);
      assert false;
    }
    PartitionOrdered(batches, first, last, batchSize, k);
    forall i | 0 <= i < |batches| && batches[i].from <= b <= batches[i].to
      ensures i == k
    {
      PartitionOrdered(batches, first, last, batchSize, i);
      Distribute(i, 1, batchSize);
      assert b - first == i * batchSize + (b - first - i * batchSize);
      DivModUnique(b - first, batchSize, i, b - first - i * batchSize);
    }
  }

  /** The last block of consecutive ranges that start from a block; before it if there are none. */
  function ReachOf(ranges: seq<Range>, from: int): int {
    if ranges == [] then from - 1 else ranges[|ranges| - 1].to
  }

  /** The first n ranges of a partition hold exactly the blocks up to the end of the last of them. */
  lemma PrefixCovers(batches: seq<Range>, first: int, last: int, batchSize: int, n: nat)
    requires batchSize >= 1 && Partitions(batches, first, last, batchSize) && n <= |batches|
    ensures forall b :: Covered(batches[..n], b) <==> first <= b <= ReachOf(batches[..n], first)
    ensures ReachOf(batches[..n], first) <= last
  {
    PartitionOrdered(batches, first, last, batchSize, |batches| - 1);
    MulMonotone(0, |batches| - 1, batchSize);
    if n > 0 {
      PrefixPartitions(batches, first, last, batchSize, n);
      var end := batches[n - 1].to;
      forall b ensures Covered(batches[..n], b) <==> first <= b <= end {
        if first <= b <= end {
          var k := BlockInOneBatch(batches[..n], first, end, batchSize, b);
        }
        if Covered(batches[..n], b) {
          assert batches[..n][..n] == batches[..n];
          CoveredWithin(batches[..n], first, end, batchSize, n, b);
        }
      }
      PartitionOrdered(batches, first, last, batchSize, n - 1);
      if n < |batches| {
        MulMonotone(n, |batches| - 1, batchSize);
      }
    }
  }

  lemma PrefixPartitions(batches: seq<Range>, first: int, last: int, batchSize: int, n: nat)
    requires batchSize >= 1 && Partitions(batches, first, last, batchSize) && 0 < n <= |batches|
    ensures Partitions(batches[..n], first, batches[n - 1].to, batchSize)
  {
  }

  // ---------- witness lists ----------

  function Concatenation<T>(batches: seq<seq<T>>): seq<T> {
    if batches == [] then [] else batches[0] + Concatenation(batches[1..])
  }

  /** Consecutive pieces of n elements, the last one possibly shorter. */
  function Chunks<T>(s: seq<T>, n: nat): seq<seq<T>>
    requires n >= 1
  {
    if s == [] then [] else if |s| <= n then [s] else [s[..n]] + Chunks(s[n..], n)
  }

  method CreateValidatorBatches<T>(validators: seq<T>, batchSize: nat) returns (batches: seq<seq<T>>)
    requires batchSize >= 1
    ensures batches == Chunks(validators, batchSize)
  {
    batches := [];
    var i := 0;
    while i < |validators|
      invariant 0 <= i
      invariant batches + Chunks(validators[Min(i, |validators|)..], batchSize) == Chunks(validators, batchSize)
    {
      var rest := validators[i..];
      var batch := validators[i..Min(i + batchSize, |validators|)];
      assert batch == rest[..|batch|] && validators[Min(i + batchSize, |validators|)..] == rest[|batch|..];
      assert |rest| <= batchSize ==> batch == rest && rest[|batch|..] == [];
      assert |rest| > batchSize ==> batch == rest[..batchSize];
      assert Chunks(rest, batchSize) == [batch] + Chunks(rest[|batch|..], batchSize);
      batches := batches + [batch];
      i := i + batchSize;
    }
  }

  /** The batches are the list cut up: joined they give it back, and every batch but the last is full. */
  lemma {:induction false} ChunksExact<T>(s: seq<T>, n: nat)
    requires n >= 1
    ensures Concatenation(Chunks(s, n)) == s
    ensures forall k :: 0 <= k < |Chunks(s, n)| ==> 0 < |Chunks(s, n)[k]| <= n
    ensures forall k :: 0 <= k < |Chunks(s, n)| - 1 ==> |Chunks(s, n)[k]| == n
  {
    if |s| > n {
      ChunksExact(s[n..], n);
      assert s == s[..n] + s[n..];
    } else if s != [] {
      assert Concatenation([s]) == s + [];
    }
  }

  lemma {:induction false} InConcatenation<T>(batches: seq<seq<T>>, k: nat, x: T)
    requires k < |batches| && x in batches[k]
    ensures x in Concatenation(batches)
  {
    if k > 0 {
      InConcatenation(batches[1..], k - 1, x);
    }
  }

  lemma {:induction false} InSomeBatch<T>(batches: seq<seq<T>>, x: T) returns (k: nat)
    requires x in Concatenation(batches)
    ensures k < |batches| && x in batches[k]
  {
    if x in batches[0] {
      k := 0;
    } else {
      k := InSomeBatch(batches[1..], x);
      k := k + 1;
    }
  }
}
