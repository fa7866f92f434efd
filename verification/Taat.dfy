/**
 Term-at-a-time evaluation: accumulator arrays, their block-max variant, and the
 aggregation of the k best documents.
 */
module Taat {
  import opened Heap
  import opened TopK
  import opened Postings

  /** Adds every payload to its document's accumulator. */
  method Accumulate(postings: PostingList, acc: array<int>)
    requires DocsBelow([postings], acc.Length)
    modifies acc
    ensures forall d :: 0 <= d < acc.Length ==> acc[d] == old(acc[d]) + Score(postings, d)
  {
    assert [postings][0] == postings;
    assert postings[..0] == [];
    for i := 0 to |postings|
      invariant forall d :: 0 <= d < acc.Length ==> acc[d] == old(acc[d]) + Score(postings[..i], d)
    {
      forall d: nat {
        ScoreSnoc(postings, i, d);
      }
      var p := postings[i];
      acc[p.doc] := acc[p.doc] + p.payload;
    }
    assert postings[..|postings|] == postings;
  }

  method AccumulateAll(lists: seq<PostingList>, acc: array<int>)
    requires DocsBelow(lists, acc.Length)
    modifies acc
    ensures forall d :: 0 <= d < acc.Length ==> acc[d] == old(acc[d]) + Total(lists, d)
  {
    assert lists[..0] == [];
    for t := 0 to |lists|
      invariant forall d :: 0 <= d < acc.Length ==> acc[d] == old(acc[d]) + Total(lists[..t], d)
    {
      forall d: nat {
        TotalSnoc(lists, t, d);
      }
      Accumulate(lists[t], acc);
    }
    assert lists[..|lists|] == lists;
  }

  /** Offers every accumulator, zero or not, in document order. */
  method AggregateTopK(acc: array<int>, k: nat, lowest: int) returns (r: seq<Node<nat>>)
    requires 1 <= k
    ensures r == SortDescending(Run(k, lowest, Board(acc[..])).top)
  {
    var top := new TopKAccumulator<nat>(k, lowest);
    for key := 0 to acc.Length
      invariant top.Valid() && fresh(top) && top.k == k && top.lowest == lowest
      invariant top.offered == Board(acc[..key])
    {
      assert acc[..key + 1][..key] == acc[..key];
      var _ := top.Accumulate(key, acc[key]);
    }
    assert acc[..acc.Length] == acc[..];
    r := top.Sorted();
  }

  /** Term-at-a-time evaluation of a query over `n` documents. */
  method TaatQuery(lists: seq<PostingList>, n: nat, k: nat, lowest: int) returns (r: seq<Node<nat>>)
    requires 1 <= k && DocsBelow(lists, n)
    ensures r == SortDescending(Answer(k, lowest, lists, n).top)
  {
    var acc := new int[n](_ => 0);
    AccumulateAll(lists, acc);
    assert acc[..] == Totals(lists, n);
    r := AggregateTopK(acc, k, lowest);
  }

  /** Offers the accumulators from `begin` up to `end`. */
  method OfferRange(acc: array<int>, begin: nat, end: nat, top: TopKAccumulator<nat>)
    requires begin <= end <= acc.Length
    requires top.Valid() && Acc(top.top, top.threshold) == Run(top.k, top.lowest, Board(acc[..begin]))
    modifies top
    ensures top.Valid() && Acc(top.top, top.threshold) == Run(top.k, top.lowest, Board(acc[..end]))
  {
    for idx := begin to end
      invariant top.Valid() && Acc(top.top, top.threshold) == Run(top.k, top.lowest, Board(acc[..idx]))
    {
      ghost var e := Node(acc[idx], idx);
      assert acc[..idx + 1][..idx] == acc[..idx];
      RunSnoc(top.k, top.lowest, Board(acc[..idx]), e);
      RunSnoc(top.k, top.lowest, top.offered, e);
      var _ := top.Accumulate(idx, acc[idx]);
    }
  }

  // ---- Blocks with maxima ----

  /** Index `i` lies in block `b`. */
  ghost predicate InBlock(i: int, b: int, blockSize: int) {
    b * blockSize <= i < b * blockSize + blockSize
  }

  lemma Scale(a: int, b: int, c: nat)
    requires a <= b
    ensures a * c <= b * c
  {
  }

  lemma BlockOf(i: nat, n: nat, blockSize: nat)
    requires i < n && 1 <= blockSize
    ensures InBlock(i, i / blockSize, blockSize)
    ensures 0 <= i / blockSize < (n + blockSize - 1) / blockSize
  {
    var q, blocks := i / blockSize, (n + blockSize - 1) / blockSize;
    assert i == q * blockSize + i % blockSize;
    assert n + blockSize - 1 == blocks * blockSize + (n + blockSize - 1) % blockSize;
    if blocks <= q {
      Scale(blocks, q, blockSize);
    }
  }

  lemma BlockUnique(i: nat, b: int, c: int, blockSize: nat)
    requires InBlock(i, b, blockSize) && InBlock(i, c, blockSize)
    ensures b == c
  {
    if b < c {
      Scale(b + 1, c, blockSize);
    } else if c < b {
      Scale(c + 1, b, blockSize);
    }
  }

  /** First index of a block, cut off at the number of accumulators. */
  function Upto(block: nat, blockSize: nat, n: nat): (r: nat)
    ensures r <= n
  {
    if block * blockSize <= n then block * blockSize else n
  }

  lemma BlockBounds(block: nat, blockSize: nat, n: nat)
    ensures Upto(block, blockSize, n) <= Upto(block + 1, blockSize, n)
    ensures forall i :: Upto(block, blockSize, n) <= i < Upto(block + 1, blockSize, n) ==> InBlock(i, block, blockSize)
  {
    assert (block + 1) * blockSize == block * blockSize + blockSize;
  }

  lemma BlocksReachEnd(n: nat, blockSize: nat)
    requires 1 <= blockSize
    ensures Upto(0, blockSize, n) == 0
    ensures Upto((n + blockSize - 1) / blockSize, blockSize, n) == n
  {
    var blocks := (n + blockSize - 1) / blockSize;
    assert n + blockSize - 1 == blocks * blockSize + (n + blockSize - 1) % blockSize;
  }

  lemma BoardOfPrefix(scores: seq<int>, n: nat)
    requires 0 < n <= |scores|
    ensures Board(scores[..n]) == Board(scores[..n - 1]) + [Node(scores[n - 1], n - 1)]
  {
    assert scores[..n][..n - 1] == scores[..n - 1];
  }

  /** No accumulator of a skipped block could have been accepted. */
  lemma {:induction false} SkippedBlock(k: nat, lowest: int, scores: array<int>, begin: nat, end: nat, bound: int)
    requires 1 <= k && begin <= end <= scores.Length
    requires forall i :: begin <= i < end ==> scores[i] <= bound
    requires bound < Run(k, lowest, Board(scores[..begin])).threshold
    ensures Run(k, lowest, Board(scores[..end])) == Run(k, lowest, Board(scores[..begin]))
  {
    hide Run, Board;
    if begin < end {
      SkippedBlock(k, lowest, scores, begin, end - 1, bound);
      BoardOfPrefix(scores[..], end);
      RunSnoc(k, lowest, Board(scores[..end - 1]), Node(scores[end - 1], end - 1));
    }
  }

  lemma NoLists(lists: seq<PostingList>)
    ensures lists[..0] == [] && forall d: nat :: Total(lists[..0], d) == 0
  {
  }

  lemma OneListBelow(lists: seq<PostingList>, t: nat, n: nat)
    requires DocsBelow(lists, n) && t < |lists|
    ensures DocsBelow([lists[t]], n)
  {
  }

  /** Accumulators that also remember, per block, a bound on the values in it. */
  class BlockAccumulatorVector {
    const blockSize: nat
    const accumulators: array<int>
    const maxValues: array<int>

    ghost predicate Valid()
      reads this, accumulators, maxValues
    {
      && 1 <= blockSize
      && accumulators != maxValues
      && maxValues.Length == (accumulators.Length + blockSize - 1) / blockSize
      && forall i, b {:trigger InBlock(i, b, blockSize)} ::
           (0 <= i < accumulators.Length && 0 <= b < maxValues.Length && InBlock(i, b, blockSize)) ==>
           accumulators[i] <= maxValues[b]
    }

    constructor (count: nat, blockSize: nat)
      requires 1 <= blockSize
      ensures Valid() && fresh(accumulators) && fresh(maxValues)
      ensures this.blockSize == blockSize && accumulators.Length == count
      ensures forall i :: 0 <= i < count ==> accumulators[i] == 0
    {
      this.blockSize := blockSize;
      accumulators := new int[count](_ => 0);
      maxValues := new int[(count + blockSize - 1) / blockSize](_ => 0);
    }

    /** `v[index] = value` */
    method Assign(index: nat, value: int)
      requires Valid() && index < accumulators.Length
      modifies accumulators, maxValues
      ensures Valid()
      ensures accumulators[..] == old(accumulators[..])[index := value]
    {
      BlockOf(index, accumulators.Length, blockSize);
      var block := index / blockSize;
      accumulators[index] := value;
      maxValues[block] := if maxValues[block] < value then value else maxValues[block];
      forall i, b | 0 <= i < accumulators.Length && 0 <= b < maxValues.Length && InBlock(i, b, blockSize)
        ensures accumulators[i] <= maxValues[b]
      {
        if i == index {
          BlockUnique(i, b, block, blockSize);
        }
      }
    }

    /** `v[index] += value` */
    method Add(index: nat, value: int)
      requires Valid() && index < accumulators.Length
      modifies accumulators, maxValues
      ensures Valid()
      ensures accumulators[..] == old(accumulators[..])[index := old(accumulators[index]) + value]
    {
      Assign(index, accumulators[index] + value);
    }

    method Accumulate(postings: PostingList)
      requires Valid() && DocsBelow([postings], accumulators.Length)
      modifies accumulators, maxValues
      ensures Valid()
      ensures forall d :: 0 <= d < accumulators.Length ==>
        accumulators[d] == old(accumulators[d]) + Score(postings, d)
    {
      assert [postings][0] == postings;
      assert postings[..0] == [];
      for i := 0 to |postings|
        invariant Valid()
        invariant forall d :: 0 <= d < accumulators.Length ==>
          accumulators[d] == old(accumulators[d]) + Score(postings[..i], d)
      {
        forall d: nat {
          ScoreSnoc(postings, i, d);
        }
        label before:
        Add(postings[i].doc, postings[i].payload);
        assert forall d :: 0 <= d < accumulators.Length ==> accumulators[d] == accumulators[..][d];
      }
      assert postings[..|postings|] == postings;
    }

    method AccumulateAll(lists: seq<PostingList>)
      requires Valid() && DocsBelow(lists, accumulators.Length)
      modifies accumulators, maxValues
      ensures Valid()
      ensures forall d :: 0 <= d < accumulators.Length ==> accumulators[d] == old(accumulators[d]) + Total(lists, d)
    {
      hide Total, Valid;
      assert lists[..0] == [] && forall d: nat :: Total(lists[..0], d) == 0 by {
        NoLists(lists);
      }
      for t := 0 to |lists|
        invariant Valid()
        invariant forall d :: 0 <= d < accumulators.Length ==>
          accumulators[d] == old(accumulators[d]) + Total(lists[..t], d)
      {
        forall d: nat {
          TotalSnoc(lists, t, d);
        }
        OneListBelow(lists, t, accumulators.Length);
        Accumulate(lists[t]);
      }
      assert lists[..|lists|] == lists;
    }

    /** One block: skipped when its bound is below the threshold, else offered in full.
        Either way the accumulator ends as if every value of the block had been offered. */
    method OfferBlock(block: nat, top: TopKAccumulator<nat>)
      requires Valid() && block < maxValues.Length && top.Valid()
      requires Acc(top.top, top.threshold)
            == Run(top.k, top.lowest, Board(accumulators[..Upto(block, blockSize, accumulators.Length)]))
      modifies top
      ensures top.Valid()
      ensures Acc(top.top, top.threshold)
           == Run(top.k, top.lowest, Board(accumulators[..Upto(block + 1, blockSize, accumulators.Length)]))
    {
      var begin := Upto(block, blockSize, accumulators.Length);
      var end := Upto(block + 1, blockSize, accumulators.Length);
      BlockBounds(block, blockSize, accumulators.Length);
      if maxValues[block] < top.threshold {
        forall i | begin <= i < end ensures accumulators[i] <= maxValues[block] {
          assert InBlock(i, block, blockSize);
        }
        SkippedBlock(top.k, top.lowest, accumulators, begin, end, maxValues[block]);
        return;
      }
      OfferRange(accumulators, begin, end, top);
    }

    method OfferBlocks(top: TopKAccumulator<nat>)
      requires Valid() && top.Valid() && top.offered == []
      modifies top
      ensures top.Valid()
      ensures Acc(top.top, top.threshold) == Run(top.k, top.lowest, Board(accumulators[..]))
    {
      ghost var n := accumulators.Length;
      BlocksReachEnd(n, blockSize);
      assert accumulators[..0] == [] && accumulators[..n] == accumulators[..];
      for block := 0 to maxValues.Length
        invariant top.Valid()
        invariant Acc(top.top, top.threshold)
               == Run(top.k, top.lowest, Board(accumulators[..Upto(block, blockSize, n)]))
      {
        OfferBlock(block, top);
      }
    }

    /** Skipping aggregation returns exactly what offering every accumulator returns. */
    method AggregateTopK(k: nat, lowest: int) returns (r: seq<Node<nat>>)
      requires Valid() && 1 <= k
      ensures r == SortDescending(Run(k, lowest, Board(accumulators[..])).top)
    {
      var top := new TopKAccumulator<nat>(k, lowest);
      OfferBlocks(top);
      r := top.Sorted();
    }
  }

  /** Term-at-a-time evaluation of a query into accumulators with block maxima. */
  method BlockTaatQuery(lists: seq<PostingList>, n: nat, blockSize: nat, k: nat, lowest: int)
    returns (r: seq<Node<nat>>)
    requires 1 <= k && 1 <= blockSize && DocsBelow(lists, n)
    ensures r == SortDescending(Answer(k, lowest, lists, n).top)
  {
    hide SortDescending, Run;
    var acc := new BlockAccumulatorVector(n, blockSize);
    acc.AccumulateAll(lists);
    assert acc.accumulators[..] == Totals(lists, n);
    r := acc.AggregateTopK(k, lowest);
  }
}
