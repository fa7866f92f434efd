/**
 The bounded accumulator that keeps the k best scored entries (`irk::top_k_accumulator`).
 `Run` folds offers one by one, `Summarizes` says declaratively what any run ends in.
 `lowest` is `std::numeric_limits<Score>::lowest()` of the score type in use.
 */
module TopK {
  import opened Heap

  datatype Acc<K> = Acc(top: seq<Node<K>>, threshold: int)

  /** One offer. An offer is dropped when its score is zero or not above the threshold. */
  function Offer<K(!new)>(k: nat, a: Acc<K>, e: Node<K>): Acc<K>
    requires 1 <= k
  {
    if e.prio != 0 && a.threshold < e.prio then
      var grown := a.top + [e];
      var top := if |grown| <= k then SiftUp(grown, |grown| - 1) else Popped(grown);
      Acc(top, if |top| == k then top[0].prio else a.threshold)
    else
      a
  }

  /** The accumulator after offering all of `es`, first to last. */
  function Run<K(!new)>(k: nat, lowest: int, es: seq<Node<K>>): Acc<K>
    requires 1 <= k
  {
    if es == [] then Acc([], lowest)
    else Offer(k, Run(k, lowest, es[..|es| - 1]), es[|es| - 1])
  }

  /** The offers that could ever be kept. */
  ghost function Eligible<K(!new)>(lowest: int, es: seq<Node<K>>): (r: multiset<Node<K>>)
    ensures forall e :: e in r <==> e in es && e.prio != 0 && lowest < e.prio
  {
    if es == [] then multiset{}
    else
      var e := es[|es| - 1];
      assert es == es[..|es| - 1] + [e];
      Eligible(lowest, es[..|es| - 1]) + (if e.prio != 0 && lowest < e.prio then multiset{e} else multiset{})
  }

  ghost function Min(a: int, b: int): int {
    if a <= b then a else b
  }

  /** `kept` is a choice of the k best entries of `all`. */
  ghost predicate IsTopK<K(!new)>(k: nat, kept: multiset<Node<K>>, all: multiset<Node<K>>) {
    && kept <= all
    && |kept| == Min(k, |all|)
    && forall x, y :: x in all - kept && y in kept ==> x.prio <= y.prio
  }

  ghost predicate Summarizes<K(!new)>(k: nat, lowest: int, a: Acc<K>, all: multiset<Node<K>>) {
    && IsHeap(a.top)
    && IsTopK(k, multiset(a.top), all)
    && (forall e :: e in all ==> lowest < e.prio)
    && (|a.top| < k ==> a.threshold == lowest)
    && (0 < |a.top| == k ==> a.threshold == a.top[0].prio)
  }

  lemma SubsetSize<T(!new)>(a: multiset<T>, b: multiset<T>)
    requires a <= b
    ensures |a| <= |b|
    ensures |a| == |b| ==> a == b
  {
    assert b == a + (b - a);
  }

  lemma StrictSubsetSize<T(!new)>(a: multiset<T>, b: multiset<T>, y: T)
    requires forall x :: a[x] <= b[x]
    requires a[y] < b[y]
    ensures |a| < |b|
  {
    SubsetSize(a + multiset{y}, b);
  }

  /** A larger bag holds something more often than a smaller one does. */
  lemma Surplus<T(!new)>(big: multiset<T>, small: multiset<T>) returns (x: T)
    requires |small| < |big|
    ensures small[x] < big[x]
  {
    if big <= small {
      SubsetSize(big, small);
    }
    x :| small[x] < big[x];
  }

  lemma RunSnoc<K(!new)>(k: nat, lowest: int, es: seq<Node<K>>, e: Node<K>)
    requires 1 <= k
    ensures Run(k, lowest, es + [e]) == Offer(k, Run(k, lowest, es), e)
  {
    assert (es + [e])[..|es|] == es;
  }

  lemma EligibleSnoc<K(!new)>(lowest: int, es: seq<Node<K>>, e: Node<K>)
    ensures Eligible(lowest, es + [e])
         == Eligible(lowest, es) + (if e.prio != 0 && lowest < e.prio then multiset{e} else multiset{})
    ensures |Eligible(lowest, es + [e])|
         == |Eligible(lowest, es)| + (if e.prio != 0 && lowest < e.prio then 1 else 0)
  {
    assert (es + [e])[..|es|] == es;
  }

  lemma RejectKeeps<K(!new)>(k: nat, kept: multiset<Node<K>>, all: multiset<Node<K>>, e: Node<K>)
    requires IsTopK(k, kept, all) && |kept| == k
    requires forall y :: y in kept ==> e.prio <= y.prio
    ensures IsTopK(k, kept, all + multiset{e})
  {
    forall x, y | x in all + multiset{e} - kept && y in kept ensures x.prio <= y.prio {
      assert x in all - kept || x == e;
    }
  }

  lemma GrowKeeps<K(!new)>(k: nat, kept: multiset<Node<K>>, all: multiset<Node<K>>, e: Node<K>)
    requires IsTopK(k, kept, all) && |kept| < k
    ensures IsTopK(k, kept + multiset{e}, all + multiset{e})
  {
    SubsetSize(kept, all);
  }

  /** Accepting into a full accumulator trades the weakest kept entry for a better one. */
  lemma TradeKeeps<K(!new)>(k: nat, kept: multiset<Node<K>>, all: multiset<Node<K>>, root: Node<K>, e: Node<K>)
    requires IsTopK(k, kept, all) && |kept| == k
    requires root in kept && forall y :: y in kept ==> root.prio <= y.prio
    requires root.prio < e.prio
    ensures IsTopK(k, kept + multiset{e} - multiset{root}, all + multiset{e})
  {
    var kept', all' := kept + multiset{e} - multiset{root}, all + multiset{e};
    forall x, y | x in all' - kept' && y in kept'
      ensures x.prio <= y.prio
    {
      assert x in all - kept || x == root;
      assert y in kept || y == e;
    }
  }

  lemma GrowSummarizes<K(!new)>(k: nat, lowest: int, a: Acc<K>, all: multiset<Node<K>>, e: Node<K>)
    requires Summarizes(k, lowest, a, all) && |a.top| < k
    requires e.prio != 0 && lowest < e.prio
    ensures Summarizes(k, lowest, Offer(k, a, e), all + multiset{e})
  {
    PushedOn(a.top, e);
    GrowKeeps(k, multiset(a.top), all, e);
  }

  lemma RejectSummarizes<K(!new)>(k: nat, lowest: int, a: Acc<K>, all: multiset<Node<K>>, e: Node<K>)
    requires 1 <= k && Summarizes(k, lowest, a, all) && |a.top| == k
    requires lowest < e.prio <= a.threshold
    ensures Summarizes(k, lowest, a, all + multiset{e})
  {
    RootBelowAll(a.top);
    assert |multiset(a.top)| == |a.top|;
    RejectKeeps(k, multiset(a.top), all, e);
  }

  lemma TradeSummarizes<K(!new)>(k: nat, lowest: int, a: Acc<K>, all: multiset<Node<K>>, e: Node<K>)
    requires 1 <= k && Summarizes(k, lowest, a, all) && |a.top| == k
    requires lowest < e.prio && a.threshold < e.prio
    ensures var r := Popped(a.top + [e]); Summarizes(k, lowest, Acc(r, r[0].prio), all + multiset{e})
  {
    var kept := multiset(a.top);
    assert |kept| == |a.top|;
    RootBelowAll(a.top);
    ReplacedTop(a.top, e);
    TradeKeeps(k, kept, all, a.top[0], e);
  }

  lemma ThresholdAboveLowest<K(!new)>(k: nat, lowest: int, a: Acc<K>, all: multiset<Node<K>>)
    requires Summarizes(k, lowest, a, all)
    ensures |a.top| <= k
    ensures 1 <= k ==> lowest <= a.threshold
  {
    assert |multiset(a.top)| == |a.top|;
    if a.top != [] {
      assert a.top[0] in multiset(a.top);
    }
  }

  /** Every run ends in a heap of the k best eligible offers with the right threshold. */
  lemma {:induction false} RunSummarizes<K(!new)>(k: nat, lowest: int, es: seq<Node<K>>)
    requires 1 <= k
    ensures Summarizes(k, lowest, Run(k, lowest, es), Eligible(lowest, es))
  {
    if es == [] {
    } else {
      var init, e := es[..|es| - 1], es[|es| - 1];
      assert es == init + [e];
      var a, all := Run(k, lowest, init), Eligible(lowest, init);
      RunSummarizes(k, lowest, init);
      ThresholdAboveLowest(k, lowest, a, all);
      if e.prio != 0 && lowest < e.prio {
        if |a.top| < k {
          GrowSummarizes(k, lowest, a, all, e);
        } else {
          if e.prio <= a.threshold {
            RejectSummarizes(k, lowest, a, all, e);
          } else {
            TradeSummarizes(k, lowest, a, all, e);
          }
        }
      }
    }
  }

  lemma RunSize<K(!new)>(k: nat, lowest: int, es: seq<Node<K>>)
    requires 1 <= k
    ensures |Run(k, lowest, es).top| <= k
  {
    RunSummarizes(k, lowest, es);
    ThresholdAboveLowest(k, lowest, Run(k, lowest, es), Eligible(lowest, es));
  }

  lemma ThresholdNeverFalls<K(!new)>(k: nat, lowest: int, es: seq<Node<K>>, e: Node<K>)
    requires 1 <= k
    ensures Run(k, lowest, es).threshold <= Run(k, lowest, es + [e]).threshold
  {
    var a := Run(k, lowest, es);
    var r := Offer(k, a, e);
    RunSnoc(k, lowest, es, e);
    RunSize(k, lowest, es);
    RunSummarizes(k, lowest, es);
    if e.prio != 0 && a.threshold < e.prio {
      if |a.top| == k {
        RootBelowAll(a.top);
        ReplacedTop(a.top, e);
        assert r.top[0] in multiset(r.top);
      } else {
        RunSummarizes(k, lowest, es + [e]);
        ThresholdAboveLowest(k, lowest, r, Eligible(lowest, es + [e]));
      }
    }
  }

  // ---- Sorted results ----

  ghost predicate Descending<K(!new)>(s: seq<Node<K>>) {
    forall i, j :: 0 <= i <= j < |s| ==> s[i].prio >= s[j].prio
  }

  function Insert<K(!new)>(s: seq<Node<K>>, e: Node<K>): (r: seq<Node<K>>)
    ensures multiset(r) == multiset(s) + multiset{e}
    ensures |r| == |s| + 1
  {
    if s == [] then [e]
    else
      var last := |s| - 1;
      assert s == s[..last] + [s[last]];
      if e.prio <= s[last].prio then s + [e]
      else Insert(s[..last], e) + [s[last]]
  }

  lemma InsertContents<K(!new)>(s: seq<Node<K>>, e: Node<K>, i: nat)
    requires i < |Insert(s, e)|
    ensures Insert(s, e)[i] == e || Insert(s, e)[i] in s
  {
    hide Insert;
    assert Insert(s, e)[i] in multiset(Insert(s, e));
  }

  lemma DescendingSnoc<K(!new)>(s: seq<Node<K>>, last: Node<K>)
    requires Descending(s) && forall i :: 0 <= i < |s| ==> last.prio <= s[i].prio
    ensures Descending(s + [last])
  {
  }

  lemma {:induction false} InsertDescends<K(!new)>(s: seq<Node<K>>, e: Node<K>)
    requires Descending(s)
    ensures Descending(Insert(s, e))
  {
    if s == [] || e.prio <= s[|s| - 1].prio {
      DescendingSnoc(s, e);
    } else {
      var init, last := s[..|s| - 1], s[|s| - 1];
      assert Insert(s, e) == Insert(init, e) + [last];
      hide Insert;
      InsertDescends(init, e);
      forall i | 0 <= i < |Insert(init, e)| ensures last.prio <= Insert(init, e)[i].prio {
        InsertContents(init, e, i);
      }
      DescendingSnoc(Insert(init, e), last);
    }
  }

  /** A descending rearrangement; the order among equal scores is the library's own. */
  function SortDescending<K(!new)>(s: seq<Node<K>>): (r: seq<Node<K>>)
    ensures multiset(r) == multiset(s)
    ensures |r| == |s|
    ensures Descending(r)
  {
    if s == [] then []
    else
      var init := s[..|s| - 1];
      assert s == init + [s[|s| - 1]];
      InsertDescends(SortDescending(init), s[|s| - 1]);
      Insert(SortDescending(init), s[|s| - 1])
  }

  lemma BetterStandsAhead<K(!new)>(t: seq<Node<K>>, i: nat, x: Node<K>)
    requires Descending(t) && i < |t| && t[i].prio < x.prio
    ensures multiset(t)[x] == multiset(t[..i])[x]
  {
    assert t == t[..i] + t[i..];
    assert x !in t[i..];
  }

  lemma PrefixSurplus<K(!new)>(s: seq<Node<K>>, t: seq<Node<K>>, i: nat) returns (x: Node<K>)
    requires i < |s| == |t|
    ensures x in s[..i + 1]
    ensures multiset(t[..i])[x] < multiset(s)[x]
  {
    x := Surplus(multiset(s[..i + 1]), multiset(t[..i]));
    assert s == s[..i + 1] + s[i + 1..];
  }

  lemma RankAtMost<K(!new)>(k: nat, s: seq<Node<K>>, t: seq<Node<K>>, all: multiset<Node<K>>, i: nat)
    requires Descending(s) && IsTopK(k, multiset(s), all)
    requires Descending(t) && IsTopK(k, multiset(t), all)
    requires i < |s| == |t|
    ensures s[i].prio <= t[i].prio
  {
    assert t[i] in multiset(t);
    if t[i].prio < s[i].prio {
      var x := PrefixSurplus(s, t, i);
      BetterStandsAhead(t, i, x);
    }
  }

  /** Any two choices of the k best carry the same scores, rank by rank. */
  lemma TopKScoresUnique<K(!new)>(k: nat, s: seq<Node<K>>, t: seq<Node<K>>, all: multiset<Node<K>>)
    requires Descending(s) && IsTopK(k, multiset(s), all)
    requires Descending(t) && IsTopK(k, multiset(t), all)
    ensures |s| == |t|
    ensures forall i :: 0 <= i < |s| ==> s[i].prio == t[i].prio
  {
    assert |multiset(s)| == |s| && |multiset(t)| == |t|;
    forall i | 0 <= i < |s|
      ensures s[i].prio == t[i].prio
    {
      RankAtMost(k, s, t, all, i);
      RankAtMost(k, t, s, all, i);
    }
  }

  lemma LeftOut<K(!new)>(k: nat, kept: multiset<Node<K>>, all: multiset<Node<K>>, x: Node<K>, y: Node<K>)
    requires IsTopK(k, kept, all) && kept[x] < all[x] && y in kept
    ensures x.prio <= y.prio
  {
    assert x in all - kept;
  }

  lemma BetterIsKept<K(!new)>(k: nat, kept: multiset<Node<K>>, all: multiset<Node<K>>, x: Node<K>, y: Node<K>)
    requires IsTopK(k, kept, all) && y in kept && y.prio < x.prio
    ensures all[x] <= kept[x]
  {
    assert x !in all - kept;
  }

  // ---- Combining partial results ----

  ghost predicate HasWitnesses<K(!new)>(k: nat, part: multiset<Node<K>>, score: int) {
    exists w: multiset<Node<K>> :: w <= part && |w| == k && forall z :: z in w ==> score <= z.prio
  }

  /** Every entry of `all` left out of `part` is beaten or matched by k entries of `part`. */
  ghost predicate Covers<K(!new)>(k: nat, part: multiset<Node<K>>, all: multiset<Node<K>>) {
    && part <= all
    && forall x :: x in all - part ==> HasWitnesses(k, part, x.prio)
  }

  lemma TopKCovers<K(!new)>(k: nat, kept: multiset<Node<K>>, all: multiset<Node<K>>)
    requires IsTopK(k, kept, all)
    ensures Covers(k, kept, all)
  {
    forall x | x in all - kept
      ensures HasWitnesses(k, kept, x.prio)
    {
      assert all == kept + (all - kept);
      assert kept <= kept && |kept| == k && forall z :: z in kept ==> x.prio <= z.prio;
    }
  }

  lemma CoversAdd<K(!new)>(k: nat, p: multiset<Node<K>>, a: multiset<Node<K>>, q: multiset<Node<K>>,
                             b: multiset<Node<K>>)
    requires Covers(k, p, a) && Covers(k, q, b)
    ensures Covers(k, p + q, a + b)
  {
    forall x | x in (a + b) - (p + q)
      ensures HasWitnesses(k, p + q, x.prio)
    {
      if x in a - p {
        var w :| w <= p && |w| == k && forall z :: z in w ==> x.prio <= z.prio;
        assert w <= p + q;
      } else {
        assert x in b - q;
        var w :| w <= q && |w| == k && forall z :: z in w ==> x.prio <= z.prio;
        assert w <= p + q;
      }
    }
  }

  lemma CoverIsLarge<K(!new)>(k: nat, part: multiset<Node<K>>, all: multiset<Node<K>>)
    requires Covers(k, part, all)
    ensures Min(k, |part|) == Min(k, |all|)
  {
    SubsetSize(part, all);
    if |part| < |all| {
      var x := Surplus(all, part);
      assert x in all - part;
      var w :| w <= part && |w| == k && forall z :: z in w ==> x.prio <= z.prio;
      SubsetSize(w, part);
    }
  }

  lemma LeftOutIsNoBetter<K(!new)>(k: nat, kept: multiset<Node<K>>, part: multiset<Node<K>>, all: multiset<Node<K>>,
                             x: Node<K>, y: Node<K>)
    requires IsTopK(k, kept, part) && Covers(k, part, all)
    requires x in all - kept && x !in part - kept && y in kept
    ensures x.prio <= y.prio
  {
    assert x in all - part;
    var w :| w <= part && |w| == k && forall z :: z in w ==> x.prio <= z.prio;
    if y !in w {
      var z := Surplus(w, kept - multiset{y});
      assert kept[z] < part[z];
      LeftOut(k, kept, part, z, y);
    }
  }

  /** The k best of a covering part are k best of the whole. */
  lemma TopKOfCover<K(!new)>(k: nat, kept: multiset<Node<K>>, part: multiset<Node<K>>, all: multiset<Node<K>>)
    requires IsTopK(k, kept, part) && Covers(k, part, all)
    ensures IsTopK(k, kept, all)
  {
    CoverIsLarge(k, part, all);
    forall x, y | x in all - kept && y in kept
      ensures x.prio <= y.prio
    {
      if x !in part - kept {
        LeftOutIsNoBetter(k, kept, part, all, x, y);
      }
    }
  }

  // ---- The accumulator object ----

  class TopKAccumulator<K(==,!new)> {
    const k: nat
    const lowest: int
    var threshold: int
    var top: seq<Node<K>>
    ghost var offered: seq<Node<K>>

    ghost predicate Valid()
      reads this
    {
      1 <= k && Run(k, lowest, offered) == Acc(top, threshold)
    }

    constructor (k: nat, lowest: int)
      requires 1 <= k
      ensures Valid() && this.k == k && this.lowest == lowest && offered == []
    {
      this.k, this.lowest := k, lowest;
      threshold := lowest;
      top := [];
      offered := [];
    }

    method Accumulate(key: K, value: int) returns (accepted: bool)
      requires Valid()
      modifies this
      ensures Valid() && offered == old(offered) + [Node(value, key)]
      ensures accepted <==> value != 0 && old(threshold) < value
    {
      hide Run, SiftUp, Popped;
      ghost var before, e := Acc(top, threshold), Node(value, key);
      RunSnoc(k, lowest, offered, e);
      RunSize(k, lowest, offered);
      offered := offered + [e];
      accepted := value != 0 && value > threshold;
      if accepted {
        var grown := top + [Node(value, key)];
        if |grown| <= k {
          top := PushHeap(grown);
        } else {
          var popped := PopHeap(grown);
          top := popped[..|popped| - 1];
          assert top == Popped(grown);
        }
        threshold := if |top| == k then top[0].prio else threshold;
      }
      assert Acc(top, threshold) == Offer(k, before, e);
    }

    lemma AtLeastOne()
      requires Valid()
      ensures 1 <= k
    {
    }

    lemma ThresholdOfRun()
      requires Valid()
      ensures threshold == Run(k, lowest, offered).threshold
    {
    }

    method Sorted() returns (r: seq<Node<K>>)
      requires Valid()
      ensures r == SortDescending(Run(k, lowest, offered).top)
      ensures Descending(r) && IsTopK(k, multiset(r), Eligible(lowest, offered))
    {
      RunSummarizes(k, lowest, offered);
      r := SortDescending(top);
    }
  }
}
