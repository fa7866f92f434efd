/**
 Counting results above a threshold, and the threshold that leaves room for k results:
 both walk the merged posting lists, one document at a time.
 */
module Threshold {
  import opened Heap
  import opened TopK
  import opened Postings
  import opened Merge

  /** Sums the payloads of `doc` at the front of the merged postings. */
  method AccumulateWhile(it: UnionIterator, doc: nat) returns (score: int)
    requires it.Valid() && DocsFrom(it.ranges, doc)
    modifies it`ranges, it`pos
    ensures it.Valid()
    ensures it.pos >= old(it.pos)
    ensures !old(it.AtEnd()) ==> old(it.ranges) != [] && old(it.ranges)[0] != []
    ensures !old(it.AtEnd()) && old(it.ranges)[0][0].doc == doc ==> old(it.pos) < it.pos
    ensures score == Total(old(it.ranges), doc)
    ensures DocsFrom(it.ranges, doc + 1)
    ensures forall d: nat :: doc < d ==> Total(it.ranges, d) == Total(old(it.ranges), d)
    ensures forall d: nat :: doc < d ==> (Mentions(it.ranges, d) <==> Mentions(old(it.ranges), d))
  {
    hide it.Valid, SameLists, Mentions, Total;
    score := 0;
    it.FrontIsNext();
    while !it.AtEnd() && it.ranges[0][0].doc == doc
      invariant it.Valid() && DocsFrom(it.ranges, doc)
      invariant !it.AtEnd() ==> it.ranges != [] && it.ranges[0] != []
      invariant old(it.pos) <= it.pos <= it.length
      invariant it.pos == old(it.pos) ==> it.ranges == old(it.ranges)
      invariant score + Total(it.ranges, doc) == Total(old(it.ranges), doc)
      invariant forall d: nat :: doc < d ==> Total(it.ranges, d) == Total(old(it.ranges), d)
      invariant forall d: nat :: doc < d ==> (Mentions(it.ranges, d) <==> Mentions(old(it.ranges), d))
      decreases it.length - it.pos
    {
      ghost var before := it.ranges;
      score := score + it.ranges[0][0].payload;
      it.Increment();
      forall d: nat {
        StepTakesFront(before, it.ranges, doc, d);
      }
      it.FrontIsNext();
    }
    it.FrontIsNext();
    TotalAbsent(it.ranges, doc);
  }

  /** How many of the documents below `n` that occur in some list score at least `t`. */
  ghost function CountAtLeast(ls: seq<PostingList>, n: nat, t: int): nat {
    if n == 0 then 0
    else CountAtLeast(ls, n - 1, t) + (if Mentions(ls, n - 1) && t <= Total(ls, n - 1) then 1 else 0)
  }

  /** The documents below `n` that occur in some list and score at least `t`. */
  ghost function Reaching(ls: seq<PostingList>, n: nat, t: int): (r: set<nat>)
    ensures forall d: nat :: d in r <==> d < n && Mentions(ls, d) && t <= Total(ls, d)
  {
    set d: nat | d < n && Mentions(ls, d) && t <= Total(ls, d)
  }

  lemma {:induction false} CountIsSize(ls: seq<PostingList>, n: nat, t: int)
    ensures CountAtLeast(ls, n, t) == |Reaching(ls, n, t)|
  {
    hide Mentions, Total;
    if n == 0 {
      assert Reaching(ls, n, t) == {};
    } else {
      CountIsSize(ls, n - 1, t);
      var fewer := Reaching(ls, n - 1, t);
      assert Reaching(ls, n, t) == if Mentions(ls, n - 1) && t <= Total(ls, n - 1) then fewer + {n - 1} else fewer;
    }
  }

  /** The documents that are counted, said in full. */
  lemma CountedDocuments(ls: seq<PostingList>, n: nat, t: int, d: nat)
    ensures d in Reaching(ls, n, t) <==>
      d < n && t <= Total(ls, d) && exists u, i :: 0 <= u < |ls| && 0 <= i < |ls[u]| && ls[u][i].doc == d
  {
    hide Total;
    if Mentions(ls, d) {
      var l: PostingList, i :| l in ls && 0 <= i < |l| && l[i].doc == d;
      var u :| 0 <= u < |ls| && ls[u] == l;
      assert ls[u][i].doc == d;
    }
  }

  lemma {:induction false} CountSkips(ls: seq<PostingList>, m: nat, n: nat, t: int)
    requires m <= n
    requires forall d: nat :: m <= d < n ==> !Mentions(ls, d)
    ensures CountAtLeast(ls, n, t) == CountAtLeast(ls, m, t)
  {
    if m < n {
      CountSkips(ls, m, n - 1, t);
    }
  }

  lemma NothingBefore(ls: seq<PostingList>, n: nat, d: nat)
    requires DocsFrom(ls, n) && d < n
    ensures Total(ls, d) == 0 && !Mentions(ls, d)
  {
    TotalAbsent(ls, d);
    NoMention(ls, n, d);
  }

  /** The number of documents in some list that score at least `threshold`. */
  method ComputeTopK(lists: seq<PostingList>, ghost n: nat, threshold: int)
    returns (count: nat, ghost documents: set<nat>)
    requires AllSorted(lists) && DocsBelow(lists, n)
    ensures count == CountAtLeast(lists, n, threshold)
    ensures count == |documents|
    ensures forall d: nat :: d in documents <==>
      d < n && threshold <= Total(lists, d)
      && exists t, i :: 0 <= t < |lists| && 0 <= i < |lists[t]| && lists[t][i].doc == d
  {
    hide SameLists, Mentions, Total;
    var it := new UnionIterator(lists, n);
    count := 0;
    ghost var next: nat := 0;
    SameListsAgree(it.ranges, lists);
    it.FrontIsNext();
    while !it.AtEnd()
      invariant it.Valid() && fresh(it) && it.bound == n && it.pos <= it.length
      invariant next <= n && DocsFrom(it.ranges, next)
      invariant !it.AtEnd() ==> it.ranges != [] && it.ranges[0] != []
      invariant forall d: nat :: next <= d ==> Total(it.ranges, d) == Total(lists, d)
      invariant forall d: nat :: next <= d ==> (Mentions(it.ranges, d) <==> Mentions(lists, d))
      invariant count == CountAtLeast(lists, next, threshold)
      decreases it.length - it.pos
    {
      it.FrontIsNext();
      var current := it.ranges[0][0].doc;
      forall d: nat | next <= d < current ensures !Mentions(lists, d) {
        NothingBefore(it.ranges, current, d);
      }
      CountSkips(lists, next, current, threshold);
      FrontMentioned(it.ranges);
      var score := AccumulateWhile(it, current);
      if score >= threshold {
        count := count + 1;
      }
      next := current + 1;
      it.FrontIsNext();
    }
    it.FrontIsNext();
    forall d: nat | next <= d < n ensures !Mentions(lists, d) {
      NothingBefore(it.ranges, d + 1, d);
    }
    CountSkips(lists, next, n, threshold);
    CountIsSize(lists, n, threshold);
    documents := Reaching(lists, n, threshold);
    forall d: nat {
      CountedDocuments(lists, n, threshold, d);
    }
  }

  /** The accumulator is offered every document of the lists with its score, in order. */
  method AccumulateMerged(lists: seq<PostingList>, ghost n: nat, acc: TopKAccumulator<nat>)
    requires acc.Valid() && acc.offered == [] && AllSorted(lists) && DocsBelow(lists, n)
    modifies acc
    ensures acc.Valid() && Run(acc.k, acc.lowest, acc.offered) == Answer(acc.k, acc.lowest, lists, n)
  {
    hide SameLists, Mentions, Total, Run, TopKAccumulator.Valid;
    var it := new UnionIterator(lists, n);
    ghost var k, lowest := acc.k, acc.lowest;
    ghost var next: nat := 0;
    SameListsAgree(it.ranges, lists);
    acc.AtLeastOne();
    NoDocumentsYet(k, lowest, lists);
    it.FrontIsNext();
    while !it.AtEnd()
      invariant it.Valid() && fresh(it) && it.bound == n && it.pos <= it.length
      invariant acc.Valid()
      invariant next <= n && DocsFrom(it.ranges, next)
      invariant !it.AtEnd() ==> it.ranges != [] && it.ranges[0] != []
      invariant forall d: nat :: next <= d ==> Total(it.ranges, d) == Total(lists, d)
      invariant Run(k, lowest, acc.offered) == Answer(k, lowest, lists, next)
      decreases it.length - it.pos
    {
      it.FrontIsNext();
      var current := it.ranges[0][0].doc;
      forall d: nat | next <= d < current ensures Total(lists, d) == 0 {
        NothingBefore(it.ranges, current, d);
      }
      var score := AccumulateWhile(it, current);
      OfferNext(k, lowest, lists, next, Posting(current, score), acc.offered);
      var _ := acc.Accumulate(current, score);
      next := current + 1;
      it.FrontIsNext();
    }
    it.FrontIsNext();
    forall d: nat | next <= d < n ensures Total(lists, d) == 0 {
      NothingBefore(it.ranges, d + 1, d);
    }
    ZerosAreNoOps(k, lowest, lists, next, n);
  }

  /** The score the k-th best document reaches, from a fresh accumulator. */
  method ComputeThreshold(lists: seq<PostingList>, ghost n: nat, k: nat, lowest: int) returns (threshold: int)
    requires 1 <= k && AllSorted(lists) && DocsBelow(lists, n)
    ensures threshold == Answer(k, lowest, lists, n).threshold
  {
    hide Total, Run, TopKAccumulator.Valid, Board, Totals;
    var acc := new TopKAccumulator<nat>(k, lowest);
    AccumulateMerged(lists, n, acc);
    acc.ThresholdOfRun();
    threshold := acc.threshold;
  }

  /** `detail::daat` over the merged lists: every payload stands for what the scorer of its
      list's term gives the posting. */
  method DaatMerged(lists: seq<PostingList>, ghost n: nat, k: nat, lowest: int) returns (r: seq<Node<nat>>)
    requires 1 <= k && AllSorted(lists) && DocsBelow(lists, n)
    ensures r == SortDescending(Answer(k, lowest, lists, n).top)
  {
    hide Total, Run, TopKAccumulator.Valid, Board, Totals;
    var acc := new TopKAccumulator<nat>(k, lowest);
    AccumulateMerged(lists, n, acc);
    r := acc.Sorted();
  }

  // ---- Duality ----

  lemma EmptyBoard(lowest: int, ls: seq<PostingList>)
    ensures |Eligible(lowest, Board(Totals(ls, 0)))| == 0
  {
    assert Board(Totals(ls, 0)) == [];
  }

  lemma Unmentioned(ls: seq<PostingList>, d: nat)
    requires !Mentions(ls, d)
    ensures Total(ls, d) == 0
  {
    forall t, i | 0 <= t < |ls| && 0 <= i < |ls[t]| ensures ls[t][i].doc != d {
      assert ls[t] in ls;
    }
    TotalAbsent(ls, d);
  }

  /** For a positive bound, counting documents is counting offers that pass it. */
  lemma {:induction false} CountIsEligible(ls: seq<PostingList>, n: nat, t: int)
    requires 1 <= t
    ensures CountAtLeast(ls, n, t) == |Eligible(t - 1, Board(Totals(ls, n)))|
  {
    hide Total, Mentions, Totals, Board, Eligible;
    if n == 0 {
      EmptyBoard(t - 1, ls);
    } else {
      CountIsEligible(ls, n - 1, t);
      BoardSnoc(ls, n - 1);
      EligibleSnoc(t - 1, Board(Totals(ls, n - 1)), Node(Total(ls, n - 1), n - 1));
      if !Mentions(ls, n - 1) {
        Unmentioned(ls, n - 1);
      }
    }
  }

  /** Raising the bar keeps exactly the entries above it. */
  lemma {:induction false} EligibleAbove<K(!new)>(lowest: int, bar: int, es: seq<Node<K>>, x: Node<K>)
    requires lowest <= bar
    ensures bar < x.prio ==> Eligible(bar, es)[x] == Eligible(lowest, es)[x]
    ensures x.prio <= bar ==> Eligible(bar, es)[x] == 0
  {
    if es != [] {
      EligibleAbove(lowest, bar, es[..|es| - 1], x);
    }
  }

  /** Fewer than k offers score above a full accumulator's threshold. */
  lemma FewAboveThreshold<K(!new)>(k: nat, lowest: int, es: seq<Node<K>>, bar: int)
    requires 1 <= k
    requires var a := Run(k, lowest, es); |a.top| == k && a.threshold <= bar && lowest <= bar
    ensures |Eligible(bar, es)| < k
  {
    var a := Run(k, lowest, es);
    var kept := multiset(a.top);
    var all := Eligible(lowest, es);
    RunSummarizes(k, lowest, es);
    RootBelowAll(a.top);
    var above, root := Eligible(bar, es), a.top[0];
    assert |kept| == k;
    forall x ensures above[x] <= kept[x] {
      EligibleAbove(lowest, bar, es, x);
      if bar < x.prio {
        BetterIsKept(k, kept, all, x, root);
      }
    }
    EligibleAbove(lowest, bar, es, root);
    StrictSubsetSize(above, kept, root);
  }

  /** At least k offers reach a full accumulator's threshold. */
  lemma ManyReachThreshold<K(!new)>(k: nat, lowest: int, es: seq<Node<K>>)
    requires 1 <= k && |Run(k, lowest, es).top| == k
    requires lowest <= Run(k, lowest, es).threshold - 1
    ensures k <= |Eligible(Run(k, lowest, es).threshold - 1, es)|
  {
    hide Run, Eligible;
    var a := Run(k, lowest, es);
    var kept := multiset(a.top);
    RunSummarizes(k, lowest, es);
    RootBelowAll(a.top);
    hide IsHeap;
    var reach := Eligible(a.threshold - 1, es);
    forall x | x in kept ensures kept[x] <= reach[x] {
      EligibleAbove(lowest, a.threshold - 1, es, x);
    }
    SubsetSize(kept, reach);
  }

  lemma NotFull<K(!new)>(k: nat, lowest: int, es: seq<Node<K>>)
    requires 1 <= k && |Run(k, lowest, es).top| < k
    ensures Run(k, lowest, es).threshold == lowest && |Eligible(lowest, es)| < k
  {
    RunSummarizes(k, lowest, es);
    assert |multiset(Run(k, lowest, es).top)| == |Run(k, lowest, es).top|;
  }

  lemma FewerAbove<K(!new)>(es: seq<Node<K>>, low: int, high: int)
    requires low <= high
    ensures |Eligible(high, es)| <= |Eligible(low, es)|
  {
    forall x ensures Eligible(high, es)[x] <= Eligible(low, es)[x] {
      EligibleAbove(low, high, es, x);
    }
    SubsetSize(Eligible(high, es), Eligible(low, es));
  }

  lemma ThresholdSplits<K(!new)>(k: nat, lowest: int, es: seq<Node<K>>)
    requires 1 <= k && lowest <= 0
    ensures var t := Run(k, lowest, es).threshold;
      && (1 <= t <==> k <= |Eligible(0, es)|)
      && (1 <= t ==> |Eligible(t, es)| < k <= |Eligible(t - 1, es)|)
  {
    hide *;
    RunSize(k, lowest, es);
    var t := Run(k, lowest, es).threshold;
    if |Run(k, lowest, es).top| < k {
      NotFull(k, lowest, es);
      FewerAbove(es, lowest, 0);
    } else if 1 <= t {
      FewAboveThreshold(k, lowest, es, t);
      ManyReachThreshold(k, lowest, es);
      FewerAbove(es, 0, t - 1);
    } else {
      FewAboveThreshold(k, lowest, es, 0);
    }
  }

  /** The threshold for k results is positive exactly when k documents score above zero,
      and then it is the largest bound that at least k documents reach. */
  lemma ThresholdIsDual(ls: seq<PostingList>, n: nat, k: nat, lowest: int)
    requires 1 <= k && lowest <= 0
    ensures var t := Answer(k, lowest, ls, n).threshold;
      && (1 <= t <==> k <= CountAtLeast(ls, n, 1))
      && (1 <= t ==> CountAtLeast(ls, n, t + 1) < k <= CountAtLeast(ls, n, t))
  {
    hide Run, Board, Totals, Eligible, CountAtLeast, Total, Mentions;
    var t := Answer(k, lowest, ls, n).threshold;
    ThresholdSplits(k, lowest, Board(Totals(ls, n)));
    CountIsEligible(ls, n, 1);
    if 1 <= t {
      CountIsEligible(ls, n, t);
      CountIsEligible(ls, n, t + 1);
    }
  }
}
