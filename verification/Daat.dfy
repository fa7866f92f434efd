/**
 The document-at-a-time evaluation the query tools run (`irk::daat`): no heap, but one
 pass over all moving ranges per document, which scores the current document and finds
 the next one at the same time.
 */
module Daat {
  import opened Heap
  import opened TopK
  import opened Postings
  import opened Merge
  import opened Options

  /** The largest document identifier (documents are `int32_t`); a pass that finds no next
      document reports it, so it is not told apart from the end. */
  const MAX_DOCUMENT: nat := 0x7FFF_FFFF

  ghost predicate AllStrictlySorted(ls: seq<PostingList>) {
    forall t :: 0 <= t < |ls| ==> StrictlySorted(ls[t])
  }

  /** A range after a pass for document `d`: its front is consumed if it is `d`. */
  function Passed(l: PostingList, d: nat): PostingList {
    if l != [] && l[0].doc == d then l[1..] else l
  }

  lemma PassedScore(l: PostingList, current: nat)
    requires StrictlySorted(l) && DocsFrom([l], current)
    ensures Score(l, current) == if l != [] && l[0].doc == current then l[0].payload else 0
    ensures forall d: nat :: current < d ==> Score(Passed(l, current), d) == Score(l, d)
    ensures StrictlySorted(Passed(l, current)) && DocsFrom([Passed(l, current)], current + 1)
  {
    assert [l][0] == l;
    if l != [] {
      assert current <= [l][0][0].doc;
      ScoreAbsent(l[1..], current);
    }
  }

  lemma {:induction false} PassedTotals(ls: seq<PostingList>, ms: seq<PostingList>, current: nat, d: nat)
    requires AllStrictlySorted(ls) && DocsFrom(ls, current) && current < d
    requires |ms| == |ls| && forall t :: 0 <= t < |ls| ==> ms[t] == Passed(ls[t], current)
    ensures Total(ms, d) == Total(ls, d)
  {
    if ls != [] {
      PassedScore(ls[0], current);
      PassedTotals(ls[1..], ms[1..], current, d);
    }
  }

  /** The part of a pass that scores and advances one range. */
  method Consume(range: PostingList, current: nat) returns (gain: int, rest: PostingList)
    requires range != []
    ensures gain == (if range[0].doc == current then range[0].payload else 0) && rest == Passed(range, current)
  {
    gain, rest := 0, range;
    if range[0].doc == current {
      gain := range[0].payload;
      rest := range[1..];
    }
  }

  lemma StepOfPass(ls: seq<PostingList>, t: nat, current: nat)
    requires t < |ls| && AllStrictlySorted(ls) && DocsFrom(ls, current) && DocsBelow(ls, MAX_DOCUMENT + 1)
    ensures Score(ls[t], current) == if ls[t] != [] && ls[t][0].doc == current then ls[t][0].payload else 0
    ensures Passed(ls[t], current) == if ls[t] != [] && ls[t][0].doc == current then ls[t][1..] else ls[t]
    ensures Passed(ls[t], current) != [] ==> current < Passed(ls[t], current)[0].doc <= MAX_DOCUMENT
  {
    var l := ls[t];
    assert [l][0] == l;
    PassedScore(l, current);
    assert Passed(l, current) != [] ==> current < [Passed(l, current)][0][0].doc;
  }

  lemma PassKeepsOrder(ls: seq<PostingList>, r: seq<PostingList>, current: nat, n: nat)
    requires AllStrictlySorted(ls) && DocsBelow(ls, n)
    requires |r| == |ls| && forall t :: 0 <= t < |ls| ==> r[t] == Passed(ls[t], current)
    ensures AllStrictlySorted(r) && DocsBelow(r, n)
  {
    forall t, i | 0 <= t < |r| && 0 <= i < |r[t]| ensures r[t][i].doc < n {
      assert r[t][i] == ls[t][i] || r[t][i] == ls[t][i + 1];
    }
  }

  /** After a pass the scored document is done and all later ones are untouched. */
  lemma PassKeeps(ls: seq<PostingList>, r: seq<PostingList>, current: nat, n: nat)
    requires AllStrictlySorted(ls) && DocsFrom(ls, current) && DocsBelow(ls, n)
    requires |r| == |ls| && forall t :: 0 <= t < |ls| ==> r[t] == Passed(ls[t], current)
    ensures AllStrictlySorted(r) && DocsBelow(r, n)
    ensures forall d: nat :: current < d ==> Total(r, d) == Total(ls, d)
  {
    hide Total, AllStrictlySorted, DocsBelow, DocsFrom, Passed;
    PassKeepsOrder(ls, r, current, n);
    forall d: nat | current < d {
      PassedTotals(ls, r, current, d);
    }
  }

  lemma NothingBeforeFronts(ls: seq<PostingList>, r: seq<PostingList>, current: nat, m: nat)
    requires AllStrictlySorted(ls) && DocsFrom(ls, current) && DocsBelow(ls, MAX_DOCUMENT + 1)
    requires |r| == |ls| && forall t :: 0 <= t < |ls| ==> r[t] == Passed(ls[t], current)
    requires forall t :: 0 <= t < |r| && r[t] != [] ==> m <= r[t][0].doc
    ensures DocsFrom(r, m)
  {
    PassKeeps(ls, r, current, MAX_DOCUMENT + 1);
  }

  /** Scores `current`, moves every range past it, and finds the next document below the
      largest identifier. */
  method Pass(ls: seq<PostingList>, current: nat)
    returns (r: seq<PostingList>, score: int, nextDoc: nat, nextList: nat)
    requires AllStrictlySorted(ls) && DocsFrom(ls, current) && DocsBelow(ls, MAX_DOCUMENT + 1)
    ensures |r| == |ls| && forall t :: 0 <= t < |ls| ==> r[t] == Passed(ls[t], current)
    ensures score == Total(ls, current)
    ensures nextDoc <= MAX_DOCUMENT && (nextDoc < MAX_DOCUMENT ==> current < nextDoc) && DocsFrom(r, nextDoc)
    ensures nextDoc < MAX_DOCUMENT ==> nextList < |r| && r[nextList] != [] && r[nextList][0].doc == nextDoc
  {
    assert ls[..0] == [] && Total(ls[..0], current) == 0;
    hide Total, Score, DocsFrom, AllStrictlySorted, Passed;
    r := ls;
    score := 0;
    nextDoc, nextList := MAX_DOCUMENT, 0;
    for it := 0 to |ls|
      invariant |r| == |ls| && nextDoc <= MAX_DOCUMENT && (nextDoc < MAX_DOCUMENT ==> current < nextDoc)
      invariant forall t :: 0 <= t < it ==>
        r[t] == Passed(ls[t], current) && (r[t] != [] ==> nextDoc <= r[t][0].doc)
      invariant r[it..] == ls[it..]
      invariant score == Total(ls[..it], current)
      invariant nextDoc < MAX_DOCUMENT ==> nextList < it && r[nextList] != [] && r[nextList][0].doc == nextDoc
    {
      TotalSnoc(ls, it, current);
      StepOfPass(ls, it, current);
      assert r[it..][0] == ls[it..][0] && r[it..][1..] == ls[it..][1..];
      var range := r[it];
      if range == [] {
        continue;
      }
      var gain;
      gain, range := Consume(range, current);
      score := score + gain;
      r := r[it := range];
      if range != [] && range[0].doc < nextDoc {
        nextDoc := range[0].doc;
        nextList := it;
      }
    }
    assert ls[..|ls|] == ls;
    NothingBeforeFronts(ls, r, current, nextDoc);
  }

  /** Some list has a posting. */
  ghost predicate AnyPosting(ls: seq<PostingList>) {
    exists t :: 0 <= t < |ls| && ls[t] != []
  }

  /** `std::min_element` by the program's order on ranges: an exhausted range is the least
      only if all are. */
  method MinElement(ls: seq<PostingList>) returns (m: nat)
    requires AllStrictlySorted(ls) && ls != []
    ensures m < |ls| && (ls[m] != [] <==> AnyPosting(ls))
    ensures ls[m] != [] ==> DocsFrom(ls, ls[m][0].doc)
  {
    m := 0;
    for i := 1 to |ls|
      invariant m < i
      invariant forall t :: 0 <= t < i && ls[t] != [] ==> ls[m] != [] && ls[m][0].doc <= ls[t][0].doc
    {
      if Before(ls[i], ls[m]) {
        m := i;
      }
    }
  }

  lemma SwapKeeps(ls: seq<PostingList>, i: nat, j: nat, n: nat, m: nat)
    requires i < |ls| && j < |ls| && AllStrictlySorted(ls) && DocsBelow(ls, n) && DocsFrom(ls, m)
    ensures var r := ls[i := ls[j]][j := ls[i]];
      AllStrictlySorted(r) && DocsBelow(r, n) && DocsFrom(r, m) && SameTotals(r, ls)
  {
    SwapTotals(ls, i, j);
  }

  /** The documents a run visits lie below this one: the largest identifier is visited only
      if it is the first. */
  ghost function Horizon(lists: seq<PostingList>): nat {
    if DocsFrom(lists, MAX_DOCUMENT) then MAX_DOCUMENT + 1 else MAX_DOCUMENT
  }

  /** The loop over documents, from the first document of list `m` on. */
  method VisitAll(lists: seq<PostingList>, m: nat, acc: TopKAccumulator<nat>)
    requires AllStrictlySorted(lists) && DocsBelow(lists, MAX_DOCUMENT + 1)
    requires m < |lists| && lists[m] != [] && DocsFrom(lists, lists[m][0].doc)
    requires acc.Valid() && acc.offered == []
    modifies acc
    ensures acc.Valid()
    ensures Run(acc.k, acc.lowest, acc.offered) == Answer(acc.k, acc.lowest, lists, Horizon(lists))
  {
    hide Total, Run, TopKAccumulator.Valid, AllStrictlySorted, Passed, Board, Totals;
    ghost var k, lowest := acc.k, acc.lowest;
    acc.AtLeastOne();
    var current := lists[m][0].doc;
    var ranges := lists[0 := lists[m]][m := lists[0]];
    SwapKeeps(lists, 0, m, MAX_DOCUMENT + 1, current);
    NoDocumentsYet(k, lowest, lists);
    ghost var next: nat := 0;
    while true
      invariant |ranges| == |lists| && next <= current <= MAX_DOCUMENT
      invariant current == MAX_DOCUMENT ==> DocsFrom(lists, MAX_DOCUMENT)
      invariant DocsFrom(lists, MAX_DOCUMENT) ==> current == MAX_DOCUMENT
      invariant AllStrictlySorted(ranges) && DocsBelow(ranges, MAX_DOCUMENT + 1) && DocsFrom(ranges, current)
      invariant acc.Valid() && acc.k == k && acc.lowest == lowest
      invariant forall d: nat :: next <= d ==> Total(ranges, d) == Total(lists, d)
      invariant Run(k, lowest, acc.offered) == Answer(k, lowest, lists, next)
      decreases MAX_DOCUMENT - current
    {
      ghost var before := ranges;
      var score, nextDoc, nextList;
      ranges, score, nextDoc, nextList := Pass(ranges, current);
      PassKeeps(before, ranges, current, MAX_DOCUMENT + 1);
      forall d: nat | next <= d < current ensures Total(lists, d) == 0 {
        TotalAbsent(before, d);
      }
      OfferNext(k, lowest, lists, next, Posting(current, score), acc.offered);
      var _ := acc.Accumulate(current, score);
      next := current + 1;
      if nextDoc < MAX_DOCUMENT {
        current := nextDoc;
        SwapKeeps(ranges, 0, nextList, MAX_DOCUMENT + 1, current);
        ranges := ranges[0 := ranges[nextList]][nextList := ranges[0]];
      } else {
        break;
      }
    }
    forall d: nat | next <= d < MAX_DOCUMENT ensures Total(lists, d) == 0 {
      TotalAbsent(ranges, d);
    }
    if next <= MAX_DOCUMENT {
      ZerosAreNoOps(k, lowest, lists, next, MAX_DOCUMENT);
    }
  }

  /** Only lists of nothing but the largest identifier are searched for it. */
  lemma HorizonIs(lists: seq<PostingList>)
    requires DocsBelow(lists, 0x8000_0000)
    ensures Horizon(lists)
         == if forall t, i :: 0 <= t < |lists| && 0 <= i < |lists[t]| ==> lists[t][i].doc == 0x7FFF_FFFF
            then 0x8000_0000 else 0x7FFF_FFFF
  {
  }

  lemma NonePosted(lists: seq<PostingList>)
    ensures !AnyPosting(lists) <==> forall t :: 0 <= t < |lists| ==> lists[t] == []
  {
  }

  /** The k best documents, found document by document. Without any posting there is no
      first document, and the program reads behind the end of a list. */
  method DaatQuery(lists: seq<PostingList>, k: nat, lowest: int) returns (r: Option<seq<Node<nat>>>)
    requires 1 <= k && AllStrictlySorted(lists) && DocsBelow(lists, 0x8000_0000)
    ensures r.Some? <==> AnyPosting(lists)
    ensures r == None <==> forall t :: 0 <= t < |lists| ==> lists[t] == []
    ensures r.Some? ==> r.value == SortDescending(Answer(k, lowest, lists, Horizon(lists)).top)
  {
    hide Horizon, Run, Total, Board, Totals, SortDescending, TopKAccumulator.Valid, AnyPosting, DocsBelow, DocsFrom,
      AllStrictlySorted;
    NonePosted(lists);
    if lists == [] {
      return None;
    }
    var m := MinElement(lists);
    if lists[m] == [] {
      return None;
    }
    var acc := new TopKAccumulator<nat>(k, lowest);
    VisitAll(lists, m, acc);
    var sorted := acc.Sorted();
    r := Some(sorted);
  }

  /** A collection without the largest identifier is searched whole. */
  lemma WithinHorizon(k: nat, lowest: int, lists: seq<PostingList>, n: nat)
    requires 1 <= k && DocsBelow(lists, n) && n <= MAX_DOCUMENT
    ensures Answer(k, lowest, lists, Horizon(lists)) == Answer(k, lowest, lists, n)
  {
    hide Run, Board, Totals, Total;
    forall d: nat | n <= d < Horizon(lists) ensures Total(lists, d) == 0 {
      TotalAbsent(lists, d);
    }
    ZerosAreNoOps(k, lowest, lists, n, Horizon(lists));
  }

  lemma TwoLists(ls: seq<PostingList>, d: nat)
    requires |ls| == 2 && |ls[0]| == |ls[1]| == 1
    ensures Total(ls, d)
         == (if ls[0][0].doc == d then ls[0][0].payload else 0) + (if ls[1][0].doc == d then ls[1][0].payload else 0)
  {
    assert ls[1..] == [ls[1]] && [ls[1]][1..] == [] && ls[0][1..] == [] && ls[1][1..] == [];
    assert Total([], d) == 0 && Score([], d) == 0;
    assert Total([ls[1]], d) == Score(ls[1], d);
  }

  lemma OfferGrows(k: nat, a: Acc<nat>, e: Node<nat>)
    requires 1 <= k && |a.top| < k && e.prio != 0 && a.threshold < e.prio
    ensures |Offer(k, a, e).top| == |a.top| + 1
    ensures |a.top| + 1 < k ==> Offer(k, a, e).threshold == a.threshold
  {
  }

  lemma EmptyRun(k: nat, lowest: int)
    requires 1 <= k
    ensures Run<nat>(k, lowest, []) == Acc([], lowest)
  {
  }

  /** A list of one posting and a list of one other. */
  ghost predicate TwoDocuments(lists: seq<PostingList>, last: nat) {
    && 0 < last && Total(lists, 0) == Total(lists, last) == 1
    && forall d: nat :: 0 < d < last ==> Total(lists, d) == 0
  }

  lemma TwoDocumentsAnswer(lists: seq<PostingList>, last: nat, lowest: int)
    requires lowest < 1 && TwoDocuments(lists, last)
    ensures |Answer(2, lowest, lists, last).top| == 1 && |Answer(2, lowest, lists, last + 1).top| == 2
  {
    hide Run, Board, Totals, Total, Offer;
    EmptyRun(2, lowest);
    NoDocumentsYet(2, lowest, lists);
    BoardStep(2, lowest, lists, 0);
    OfferGrows(2, Acc([], lowest), Node(1, 0));
    ZerosAreNoOps(2, lowest, lists, 1, last);
    BoardStep(2, lowest, lists, last);
    OfferGrows(2, Answer(2, lowest, lists, last), Node(1, last));
  }

  /** The largest identifier behind another document is missed. */
  lemma LargestDocumentMissed(lowest: int)
    requires lowest < 1
    ensures var lists := [[Posting(0, 1)], [Posting(MAX_DOCUMENT, 1)]];
      && |Answer(2, lowest, lists, Horizon(lists)).top| == 1
      && |Answer(2, lowest, lists, MAX_DOCUMENT + 1).top| == 2
  {
    hide Run, Board, Totals, Total;
    var lists := [[Posting(0, 1)], [Posting(MAX_DOCUMENT, 1)]];
    assert !DocsFrom(lists, MAX_DOCUMENT) by {
      assert lists[0][0].doc == 0;
    }
    forall d: nat ensures Total(lists, d) == if d == 0 || d == MAX_DOCUMENT then 1 else 0 {
      TwoLists(lists, d);
    }
    TwoDocumentsAnswer(lists, MAX_DOCUMENT, lowest);
  }
}
