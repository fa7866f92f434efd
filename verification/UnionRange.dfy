/**
 The heap-driven union of sorted posting lists (`irk::union_range`). A moving range is
 the postings of a list that are still ahead of its left end.
 */
module UnionRange {
  import opened Heap
  import opened TopK
  import opened Postings

  function Scaled(w: int, l: PostingList): (r: PostingList)
    ensures |r| == |l|
    ensures forall i :: 0 <= i < |l| ==> r[i] == Posting(l[i].doc, l[i].payload * w)
  {
    seq(|l|, i requires 0 <= i < |l| => Posting(l[i].doc, l[i].payload * w))
  }

  function Weighted(weights: seq<int>, ls: seq<PostingList>): (r: seq<PostingList>)
    requires |ls| <= |weights|
    ensures |r| == |ls|
    ensures forall t :: 0 <= t < |ls| ==> r[t] == Scaled(weights[t], ls[t])
  {
    seq(|ls|, t requires 0 <= t < |ls| => Scaled(weights[t], ls[t]))
  }

  lemma WeightedDocs(weights: seq<int>, ls: seq<PostingList>, n: nat)
    requires |ls| <= |weights| && DocsBelow(ls, n)
    ensures DocsBelow(Weighted(weights, ls), n)
  {
  }

  lemma UnitWeights(weights: seq<int>, ls: seq<PostingList>)
    requires |ls| <= |weights| && forall t :: 0 <= t < |weights| ==> weights[t] == 1
    ensures Weighted(weights, ls) == ls
  {
    forall t | 0 <= t < |ls| ensures Weighted(weights, ls)[t] == ls[t] {
      assert Scaled(1, ls[t]) == ls[t];
    }
  }

  // ---- What the heap holds: one entry per list that is not exhausted ----

  ghost function Front(l: PostingList, term: nat): multiset<Node<nat>> {
    if l == [] then multiset{} else multiset{Node(l[0].doc, term)}
  }

  ghost function Fronts(ranges: seq<PostingList>): multiset<Node<nat>> {
    if ranges == [] then multiset{}
    else Fronts(ranges[..|ranges| - 1]) + Front(ranges[|ranges| - 1], |ranges| - 1)
  }

  lemma {:induction false} FrontsMember(ranges: seq<PostingList>, e: Node<nat>)
    ensures e in Fronts(ranges) <==> e.item < |ranges| && ranges[e.item] != [] && e.prio == ranges[e.item][0].doc
  {
    if ranges != [] {
      FrontsMember(ranges[..|ranges| - 1], e);
    }
  }

  /** Bookkeeping on bags: a trade made in a part is made in the whole. */
  lemma TradeInPart<T(!new)>(part: multiset<T>, part': multiset<T>, out: multiset<T>, in_: multiset<T>,
                                 rest: multiset<T>)
    requires part' + out == part + in_
    ensures (part' + rest) + out == (part + rest) + in_
  {
    assert (part' + rest) + out == (part' + out) + rest;
    assert (part + rest) + in_ == (part + in_) + rest;
  }

  lemma {:induction false} FrontsUpdate(ranges: seq<PostingList>, t: nat, l: PostingList)
    requires t < |ranges|
    ensures Fronts(ranges[t := l]) + Front(ranges[t], t) == Fronts(ranges) + Front(l, t)
  {
    var last := |ranges| - 1;
    var updated := ranges[t := l];
    if t == last {
      assert updated[..last] == ranges[..last];
    } else {
      assert updated[..last] == ranges[..last][t := l];
      FrontsUpdate(ranges[..last], t, l);
      TradeInPart(Fronts(ranges[..last]), Fronts(updated[..last]), Front(ranges[t], t), Front(l, t),
                  Front(ranges[last], last));
    }
  }

  // ---- Postings ahead ----

  /** All postings of some lists, as a bag. */
  ghost function Bag(ls: seq<PostingList>): multiset<Posting> {
    if ls == [] then multiset{} else Bag(ls[..|ls| - 1]) + multiset(ls[|ls| - 1])
  }

  lemma {:induction false} BagUpdate(ls: seq<PostingList>, t: nat, l: PostingList)
    requires t < |ls|
    ensures Bag(ls[t := l]) + multiset(ls[t]) == Bag(ls) + multiset(l)
  {
    var last := |ls| - 1;
    var updated := ls[t := l];
    if t == last {
      assert updated[..last] == ls[..last];
    } else {
      assert updated[..last] == ls[..last][t := l];
      BagUpdate(ls[..last], t, l);
      TradeInPart(Bag(ls[..last]), Bag(updated[..last]), multiset(ls[t]), multiset(l), multiset(ls[last]));
    }
  }

  lemma {:induction false} BagOfExhausted(ls: seq<PostingList>)
    requires forall t :: 0 <= t < |ls| ==> ls[t] == []
    ensures Bag(ls) == multiset{}
  {
    if ls != [] {
      BagOfExhausted(ls[..|ls| - 1]);
    }
  }

  lemma FrontOfBag(l: PostingList)
    requires l != []
    ensures multiset(l) == multiset{l[0]} + multiset(l[1..])
  {
    assert l == [l[0]] + l[1..];
  }

  lemma Cancel<T(!new)>(a: multiset<T>, b: multiset<T>, c: multiset<T>, rest: multiset<T>)
    requires b + (c + rest) == a + rest
    ensures a == b + c
  {
    assert a == (a + rest) - rest;
    assert b + c == (b + (c + rest)) - rest;
  }

  lemma AdvanceTakesFront(ls: seq<PostingList>, t: nat)
    requires t < |ls| && ls[t] != []
    ensures Bag(ls) == Bag(Advanced(ls, t)) + multiset{ls[t][0]}
    ensures Count(ls) == Count(Advanced(ls, t)) + 1
  {
    hide Bag, Count;
    var rest := ls[t][1..];
    CountUpdate(ls, t, rest);
    BagUpdate(ls, t, rest);
    FrontOfBag(ls[t]);
    Cancel(Bag(ls), Bag(Advanced(ls, t)), multiset{ls[t][0]}, multiset(rest));
  }

  /** The list has a posting for the document. */
  ghost predicate InList(l: PostingList, d: nat) {
    exists i :: 0 <= i < |l| && l[i].doc == d
  }

  lemma InListSnoc(l: PostingList, p: Posting, d: nat)
    ensures InList(l + [p], d) <==> InList(l, d) || p.doc == d
  {
    if InList(l, d) {
      var i :| 0 <= i < |l| && l[i].doc == d;
      assert (l + [p])[i].doc == d;
    }
    if p.doc == d {
      assert (l + [p])[|l|].doc == d;
    }
  }

  /** Every list of `ahead` is what is left of the same list of `all`. */
  ghost predicate Suffixes(ahead: seq<PostingList>, all: seq<PostingList>) {
    && |ahead| == |all|
    && forall t :: 0 <= t < |all| ==> |ahead[t]| <= |all[t]| && ahead[t] == all[t][|all[t]| - |ahead[t]|..]
  }

  lemma SuffixesAdvance(ahead: seq<PostingList>, all: seq<PostingList>, t: nat)
    requires Suffixes(ahead, all) && t < |ahead| && ahead[t] != []
    ensures Suffixes(Advanced(ahead, t), all)
  {
    var l := all[t];
    assert l[|l| - |ahead[t]|..][1..] == l[|l| - |ahead[t]| + 1..];
  }

  lemma ScaledRest(w: int, l: PostingList)
    requires l != []
    ensures Scaled(w, l[1..]) == Scaled(w, l)[1..]
  {
  }

  /** Moving one list on keeps the lists ahead the weighted ranges. */
  lemma ScaledAdvance(weights: seq<int>, ranges: seq<PostingList>, ahead: seq<PostingList>, term: nat)
    requires |ranges| == |ahead| <= |weights| && term < |ahead| && ahead[term] != []
    requires forall t :: 0 <= t < |ranges| ==> ahead[t] == Scaled(weights[t], ranges[t])
    ensures ranges[term] != [] && |ranges[term]| == |ahead[term]|
    ensures ahead[term][0] == Posting(ranges[term][0].doc, ranges[term][0].payload * weights[term])
    ensures 1 < |ahead[term]| ==> ranges[term][1].doc == ahead[term][1].doc
    ensures forall t :: 0 <= t < |ranges| ==>
      Advanced(ahead, term)[t] == Scaled(weights[t], ranges[term := ranges[term][1..]][t])
  {
    assert ahead[term] == Scaled(weights[term], ranges[term]);
    ScaledRest(weights[term], ranges[term]);
  }

  lemma WeightedKeeps(weights: seq<int>, lists: seq<PostingList>)
    requires |lists| <= |weights| && AllSorted(lists)
    ensures AllSorted(Weighted(weights, lists)) && Suffixes(Weighted(weights, lists), Weighted(weights, lists))
  {
  }

  /** A heap of the first documents of the lists, by the fronts of the weighted lists. */
  method FirstHeap(lists: seq<PostingList>, ghost ls: seq<PostingList>) returns (heap: seq<Node<nat>>)
    requires |ls| == |lists|
    requires forall t :: 0 <= t < |ls| ==>
      |ls[t]| == |lists[t]| && (ls[t] != [] ==> ls[t][0].doc == lists[t][0].doc)
    ensures IsHeap(heap) && multiset(heap) == Fronts(ls)
  {
    heap := [];
    for term := 0 to |lists|
      invariant multiset(heap) == Fronts(ls[..term])
    {
      assert ls[..term + 1][..term] == ls[..term];
      if lists[term] != [] {
        heap := heap + [Node(lists[term][0].doc, term)];
      }
    }
    assert ls[..|lists|] == ls;
    heap := MakeHeap(heap);
  }

  lemma NothingListed()
    ensures Sum([]) == 0 && forall d: nat :: !InList([], d)
  {
  }

  lemma DocsFromStart(ls: seq<PostingList>)
    ensures DocsFrom(ls, 0)
  {
  }

  lemma NotBefore(ls: seq<PostingList>, n: nat, d: nat)
    requires DocsFrom(ls, n) && Mentions(ls, d)
    ensures n <= d
  {
    if d < n {
      NoMention(ls, n, d);
    }
  }

  lemma ExhaustedMentions(ls: seq<PostingList>, d: nat)
    requires forall t :: 0 <= t < |ls| ==> ls[t] == []
    ensures !Mentions(ls, d)
  {
    NoMention(ls, d + 1, d);
  }

  lemma SameTrade<T(!new)>(a: multiset<T>, b: multiset<T>, out: multiset<T>, whole: multiset<T>, added: multiset<T>)
    requires a + out == whole + added && b + out == whole + added
    ensures a == b
  {
    assert a == a + out - out && b == b + out - out;
  }

  method ReplaceRoot(heap: seq<Node<nat>>, entry: Node<nat>) returns (r: seq<Node<nat>>)
    requires IsHeap(heap) && heap != []
    ensures IsHeap(r) && multiset(r) + multiset{heap[0]} == multiset(heap) + multiset{entry}
  {
    ReplacedTop(heap, entry);
    r := PopHeap(heap + [entry]);
    r := r[..|r| - 1];
    assert r == Popped(heap + [entry]);
  }

  method DropRoot(heap: seq<Node<nat>>) returns (r: seq<Node<nat>>)
    requires IsHeap(heap) && heap != []
    ensures IsHeap(r) && multiset(r) + multiset{heap[0]} == multiset(heap)
  {
    PrefixIsHeap(heap, |heap| - 1);
    PoppedIsHeap(heap);
    PoppedPermutes(heap);
    r := PopHeap(heap);
    r := r[..|r| - 1];
    assert r == Popped(heap);
  }

  /** The heap after the range of its root advanced to `rest`. When postings are left
      their first is pushed and the root popped at once: it takes the root's place. */
  method NextHeap(heap: seq<Node<nat>>, ghost ahead: seq<PostingList>, term: nat, rest: PostingList)
    returns (r: seq<Node<nat>>)
    requires IsHeap(heap) && heap != [] && multiset(heap) == Fronts(ahead)
    requires term < |ahead| && ahead[term] != [] && heap[0] == Node(ahead[term][0].doc, term)
    requires |rest| == |ahead[term]| - 1 && (rest != [] ==> rest[0].doc == ahead[term][1].doc)
    ensures IsHeap(r) && multiset(r) == Fronts(Advanced(ahead, term))
  {
    FrontsUpdate(ahead, term, ahead[term][1..]);
    ghost var goal, root, added := Fronts(Advanced(ahead, term)), multiset{heap[0]}, Front(ahead[term][1..], term);
    if rest != [] {
      r := ReplaceRoot(heap, Node(rest[0].doc, term));
    } else {
      r := DropRoot(heap);
    }
    SameTrade(goal, multiset(r), root, multiset(heap), added);
  }

  class UnionRange {
    const weights: seq<int>
    var ranges: seq<PostingList>
    var heap: seq<Node<nat>>
    /** The weighted lists, whole and as far as they have not been produced yet. */
    ghost const all: seq<PostingList>
    ghost var ahead: seq<PostingList>

    ghost predicate Valid()
      reads this
    {
      && |ranges| == |ahead| <= |weights|
      && (forall t :: 0 <= t < |ranges| ==> ahead[t] == Scaled(weights[t], ranges[t]))
      && AllSorted(all) && Suffixes(ahead, all)
      && IsHeap(heap) && multiset(heap) == Fronts(ahead)
    }

    constructor (lists: seq<PostingList>, weights: seq<int>)
      requires |lists| <= |weights| && AllSorted(lists)
      ensures Valid() && fresh(this)
      ensures all == ahead == Weighted(weights, lists)
      ensures |all| == |lists| && forall t :: 0 <= t < |lists| ==>
        && |all[t]| == |lists[t]|
        && forall i :: 0 <= i < |lists[t]| ==> all[t][i] == Posting(lists[t][i].doc, lists[t][i].payload * weights[t])
    {
      hide IsHeap, AllSorted, Suffixes;
      WeightedKeeps(weights, lists);
      this.weights := weights;
      ranges := lists;
      all := Weighted(weights, lists);
      ahead := Weighted(weights, lists);
      ghost var ls := Weighted(weights, lists);
      var entries := FirstHeap(lists, ls);
      heap := entries;
    }

    predicate Empty()
      reads this
    {
      heap == []
    }

    /** The heap's root names a live range whose front no posting ahead precedes. */
    lemma RootIsNext()
      requires Valid() && !Empty()
      ensures heap[0].item < |ahead| && ahead[heap[0].item] != []
      ensures heap[0].prio == ahead[heap[0].item][0].doc
      ensures DocsFrom(ahead, heap[0].prio)
    {
      RootBelowAll(heap);
      FrontsMember(ahead, heap[0]);
      forall t, i | 0 <= t < |ahead| && 0 <= i < |ahead[t]|
        ensures heap[0].prio <= ahead[t][i].doc
      {
        FrontsMember(ahead, Node(ahead[t][0].doc, t));
        assert ahead[t][0].doc <= ahead[t][i].doc;
      }
    }

    lemma EmptyMeansExhausted()
      requires Valid() && Empty()
      ensures forall t :: 0 <= t < |ahead| ==> ahead[t] == []
    {
      forall t | 0 <= t < |ahead| ensures ahead[t] == [] {
        if ahead[t] != [] {
          FrontsMember(ahead, Node(ahead[t][0].doc, t));
        }
      }
    }

    lemma AheadBelow(n: nat)
      requires Valid() && DocsBelow(all, n)
      ensures DocsBelow(ahead, n)
    {
      forall t, i | 0 <= t < |ahead| && 0 <= i < |ahead[t]| ensures ahead[t][i].doc < n {
        assert ahead[t][i] == all[t][|all[t]| - |ahead[t]| + i];
      }
    }

    method NextPosting() returns (next: Posting)
      requires Valid() && !Empty()
      modifies `ranges, `heap, `ahead
      ensures Valid()
      ensures old(heap[0].item) < |old(ahead)| && old(ahead)[old(heap[0].item)] != []
      ensures next == old(ahead)[old(heap[0].item)][0] && DocsFrom(old(ahead), next.doc)
      ensures ahead == Advanced(old(ahead), old(heap[0].item))
    {
      hide Suffixes, AllSorted, IsHeap, Fronts, DocsFrom, Scaled, Advanced;
      RootIsNext();
      var term := heap[0].item;
      SuffixesAdvance(ahead, all, term);
      ScaledAdvance(weights, ranges, ahead, term);
      next := ranges[term][0];
      next := next.(payload := next.payload * weights[term]);
      ranges := ranges[term := ranges[term][1..]];
      ghost var before := ahead;
      ahead := Advanced(ahead, term);
      heap := NextHeap(heap, before, term, ranges[term]);
    }

    lemma AdvanceKeepsOrder(t: nat)
      requires t < |ahead| && ahead[t] != [] && DocsFrom(ahead, ahead[t][0].doc)
      ensures DocsFrom(Advanced(ahead, t), ahead[t][0].doc)
    {
    }

    lemma AdvanceTakesFrontOfRoot()
      requires Valid() && !Empty()
      ensures heap[0].item < |ahead| && ahead[heap[0].item] != []
      ensures var t := heap[0].item; var next := ahead[t][0]; var rest := Advanced(ahead, t);
        && next.doc == heap[0].prio
        && DocsFrom(rest, next.doc)
        && Count(ahead) == Count(rest) + 1
        && SumAll(ahead) == next.payload + SumAll(rest)
        && (forall d: nat :: Total(ahead, d) == Total(rest, d) + (if next.doc == d then next.payload else 0))
        && forall d: nat :: Mentions(ahead, d) <==> Mentions(rest, d) || d == next.doc
    {
      RootIsNext();
      var t := heap[0].item;
      hide Total, Count, Mentions, SumAll, Valid;
      AdvanceKeepsOrder(t);
      AdvanceTakesFront(ahead, t);
      AdvanceSum(ahead, t);
      forall d: nat {
        AdvanceTotal(ahead, t, d);
      }
      forall d: nat {
        AdvanceMentions(ahead, t, d);
      }
    }

    /** The next document of the union with its whole score; every list moves past it. */
    method NextDoc() returns (next: Posting)
      requires Valid() && !Empty()
      modifies `ranges, `heap, `ahead
      ensures Valid()
      ensures exists t :: 0 <= t < |old(ahead)| && old(ahead)[t] != [] && old(ahead)[t][0].doc == next.doc
      ensures next.payload == Total(old(ahead), next.doc)
      ensures DocsFrom(old(ahead), next.doc) && DocsFrom(ahead, next.doc + 1)
      ensures forall d: nat :: next.doc < d ==> Total(ahead, d) == Total(old(ahead), d)
      ensures forall d: nat :: Mentions(old(ahead), d) <==> Mentions(ahead, d) || d == next.doc
      ensures SumAll(old(ahead)) == next.payload + SumAll(ahead)
      ensures Count(ahead) < Count(old(ahead))
    {
      hide Valid, Total, Count, Mentions, SumAll;
      AdvanceTakesFrontOfRoot();
      next := NextPosting();
      var minDoc := next.doc;
      while heap != [] && heap[0].prio == minDoc
        invariant Valid() && next.doc == minDoc
        invariant DocsFrom(ahead, minDoc)
        invariant next.payload + Total(ahead, minDoc) == Total(old(ahead), minDoc)
        invariant forall d: nat :: minDoc < d ==> Total(ahead, d) == Total(old(ahead), d)
        invariant forall d: nat :: Mentions(old(ahead), d) <==> Mentions(ahead, d) || d == minDoc
        invariant SumAll(old(ahead)) == next.payload + SumAll(ahead)
        invariant Count(ahead) < Count(old(ahead))
        decreases Count(ahead)
      {
        AdvanceTakesFrontOfRoot();
        var more := NextPosting();
        next := next.(payload := next.payload + more.payload);
      }
      if heap == [] {
        EmptyMeansExhausted();
      } else {
        RootIsNext();
      }
      TotalAbsent(ahead, minDoc);
    }

    /** Until the union is empty, `NextDoc` yields every document of the union once, in order,
        each with its whole score, and no score is lost. */
    method DrainDocs() returns (out: PostingList)
      requires Valid()
      modifies `ranges, `heap, `ahead
      ensures Valid() && Empty() && StrictlySorted(out)
      ensures forall d: nat :: InList(out, d) <==> Mentions(old(ahead), d)
      ensures forall i :: 0 <= i < |out| ==> out[i].payload == Total(old(ahead), out[i].doc)
      ensures Sum(out) == SumAll(old(ahead))
    {
      hide Valid, Total, Count, Mentions, SumAll, Sum, InList, DocsFrom;
      out := [];
      NothingListed();
      ghost var next: nat := 0;
      DocsFromStart(ahead);
      while !Empty()
        invariant Valid() && StrictlySorted(out) && DocsFrom(ahead, next)
        invariant out != [] ==> next == out[|out| - 1].doc + 1
        invariant forall d: nat :: next <= d ==> Total(ahead, d) == Total(old(ahead), d)
        invariant forall d: nat :: Mentions(old(ahead), d) <==> Mentions(ahead, d) || InList(out, d)
        invariant forall i :: 0 <= i < |out| ==> out[i].payload == Total(old(ahead), out[i].doc)
        invariant Sum(out) + SumAll(ahead) == SumAll(old(ahead))
        decreases Count(ahead)
      {
        ghost var before := ahead;
        var p := NextDoc();
        NotBefore(before, next, p.doc);
        SumSnoc(out, p);
        forall d: nat {
          InListSnoc(out, p, d);
        }
        out := out + [p];
        next := p.doc + 1;
      }
      EmptyMeansExhausted();
      SumOfExhausted(ahead);
      forall d: nat {
        ExhaustedMentions(ahead, d);
      }
    }

    /** Until the union is empty, `NextPosting` yields every weighted posting exactly once,
        in order of documents. */
    method DrainPostings() returns (out: PostingList)
      requires Valid()
      modifies `ranges, `heap, `ahead
      ensures Valid() && Empty()
      ensures Sorted(out)
      ensures multiset(out) == Bag(old(ahead))
    {
      hide Valid, Bag, Count;
      out := [];
      while !Empty()
        invariant Valid() && Sorted(out)
        invariant multiset(out) + Bag(ahead) == Bag(old(ahead))
        invariant out != [] ==> DocsFrom(ahead, out[|out| - 1].doc)
        decreases Count(ahead)
      {
        AdvanceTakesFrontOfRoot();
        AdvanceTakesFront(ahead, heap[0].item);
        var next := NextPosting();
        out := out + [next];
      }
      EmptyMeansExhausted();
      BagOfExhausted(ahead);
    }
  }

  /** Document-at-a-time evaluation: drain the union into a top-k accumulator. */
  method DaatUnion(lists: seq<PostingList>, weights: seq<int>, ghost n: nat, k: nat, lowest: int)
    returns (r: seq<Node<nat>>)
    requires 1 <= k && |lists| <= |weights| && AllSorted(lists) && DocsBelow(lists, n)
    ensures r == SortDescending(Answer(k, lowest, Weighted(weights, lists), n).top)
  {
    hide UnionRange.Valid, TopKAccumulator.Valid, Total, Count, Run, Board, DocsBelow;
    var union := new UnionRange(lists, weights);
    var top := new TopKAccumulator<nat>(k, lowest);
    ghost var all, next: nat := union.all, 0;
    WeightedDocs(weights, lists, n);
    NoDocumentsYet(k, lowest, all);
    while !union.Empty()
      invariant union.Valid() && fresh(union)
      invariant top.Valid() && fresh(top) && top.k == k && top.lowest == lowest
      invariant next <= n && DocsFrom(union.ahead, next)
      invariant forall d: nat :: next <= d ==> Total(union.ahead, d) == Total(all, d)
      invariant Run(k, lowest, top.offered) == Answer(k, lowest, all, next)
      decreases Count(union.ahead)
    {
      ghost var before := union.ahead;
      union.AheadBelow(n);
      var p := union.NextDoc();
      forall d: nat | next <= d < p.doc ensures Total(all, d) == 0 {
        TotalAbsent(before, d);
      }
      OfferNext(k, lowest, all, next, p, top.offered);
      var _ := top.Accumulate(p.doc, p.payload);
      next := p.doc + 1;
    }
    union.EmptyMeansExhausted();
    forall d: nat | next <= d < n ensures Total(all, d) == 0 {
      TotalAbsent(union.ahead, d);
    }
    ZerosAreNoOps(k, lowest, all, next, n);
    r := top.Sorted();
  }
}
