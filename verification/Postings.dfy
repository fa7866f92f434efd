/**
 Posting lists and the plain specification every evaluation strategy must meet:
 a document's score is the sum of its payloads over all lists, and the documents
 are offered to the top-k accumulator in increasing order.
 */
module Postings {
  import opened Heap
  import opened TopK

  datatype Posting = Posting(doc: nat, payload: int)

  type PostingList = seq<Posting>

  ghost predicate Sorted(l: PostingList) {
    forall i, j :: 0 <= i < j < |l| ==> l[i].doc <= l[j].doc
  }

  ghost predicate StrictlySorted(l: PostingList) {
    forall i, j :: 0 <= i < j < |l| ==> l[i].doc < l[j].doc
  }

  ghost predicate AllSorted(ls: seq<PostingList>) {
    forall t :: 0 <= t < |ls| ==> Sorted(ls[t])
  }

  ghost predicate DocsBelow(ls: seq<PostingList>, n: nat) {
    forall t, i :: 0 <= t < |ls| && 0 <= i < |ls[t]| ==> ls[t][i].doc < n
  }

  ghost predicate DocsFrom(ls: seq<PostingList>, n: nat) {
    forall t, i :: 0 <= t < |ls| && 0 <= i < |ls[t]| ==> n <= ls[t][i].doc
  }

  function Score(l: PostingList, d: nat): int {
    if l == [] then 0 else (if l[0].doc == d then l[0].payload else 0) + Score(l[1..], d)
  }

  function Total(ls: seq<PostingList>, d: nat): int {
    if ls == [] then 0 else Score(ls[0], d) + Total(ls[1..], d)
  }

  ghost predicate SameTotals(ls: seq<PostingList>, ms: seq<PostingList>) {
    forall d: nat :: Total(ls, d) == Total(ms, d)
  }

  function Count(ls: seq<PostingList>): nat {
    if ls == [] then 0 else |ls[0]| + Count(ls[1..])
  }

  /** Some list has a posting for document `d`. */
  ghost predicate Mentions(ls: seq<PostingList>, d: nat) {
    exists l: PostingList, i :: l in ls && 0 <= i < |l| && l[i].doc == d
  }

  /** All payloads of a list. */
  function Sum(l: PostingList): int {
    if l == [] then 0 else l[0].payload + Sum(l[1..])
  }

  function SumAll(ls: seq<PostingList>): int {
    if ls == [] then 0 else Sum(ls[0]) + SumAll(ls[1..])
  }

  lemma {:induction false} SumSnoc(l: PostingList, p: Posting)
    ensures Sum(l + [p]) == Sum(l) + p.payload
  {
    if l != [] {
      assert (l + [p])[1..] == l[1..] + [p];
      SumSnoc(l[1..], p);
    }
  }

  lemma {:induction false} SumUpdate(ls: seq<PostingList>, t: nat, l: PostingList)
    requires t < |ls|
    ensures SumAll(ls[t := l]) == SumAll(ls) - Sum(ls[t]) + Sum(l)
  {
    if t != 0 {
      assert ls[t := l][1..] == ls[1..][t - 1 := l];
      SumUpdate(ls[1..], t - 1, l);
    }
  }

  lemma {:induction false} SumOfExhausted(ls: seq<PostingList>)
    requires forall t :: 0 <= t < |ls| ==> ls[t] == []
    ensures SumAll(ls) == 0
  {
    if ls != [] {
      SumOfExhausted(ls[1..]);
    }
  }

  lemma {:induction false} ScoreConcat(a: PostingList, b: PostingList, d: nat)
    ensures Score(a + b, d) == Score(a, d) + Score(b, d)
  {
    if a == [] {
      assert a + b == b;
    } else {
      assert (a + b)[1..] == a[1..] + b;
      ScoreConcat(a[1..], b, d);
    }
  }

  lemma ScoreSnoc(l: PostingList, i: nat, d: nat)
    requires i < |l|
    ensures Score(l[..i + 1], d) == Score(l[..i], d) + (if l[i].doc == d then l[i].payload else 0)
  {
    assert l[..i + 1] == l[..i] + [l[i]];
    ScoreConcat(l[..i], [l[i]], d);
  }

  lemma {:induction false} ScoreAbsent(l: PostingList, d: nat)
    requires forall i :: 0 <= i < |l| ==> l[i].doc != d
    ensures Score(l, d) == 0
  {
    if l != [] {
      ScoreAbsent(l[1..], d);
    }
  }

  lemma {:induction false} TotalConcat(a: seq<PostingList>, b: seq<PostingList>, d: nat)
    ensures Total(a + b, d) == Total(a, d) + Total(b, d)
  {
    if a == [] {
      assert a + b == b;
    } else {
      assert (a + b)[1..] == a[1..] + b;
      TotalConcat(a[1..], b, d);
    }
  }

  lemma TotalSnoc(ls: seq<PostingList>, i: nat, d: nat)
    requires i < |ls|
    ensures Total(ls[..i + 1], d) == Total(ls[..i], d) + Score(ls[i], d)
  {
    assert ls[..i + 1] == ls[..i] + [ls[i]];
    TotalConcat(ls[..i], [ls[i]], d);
  }

  lemma TotalUpdate(ls: seq<PostingList>, t: nat, l: PostingList, d: nat)
    requires t < |ls|
    ensures Total(ls[t := l], d) == Total(ls, d) - Score(ls[t], d) + Score(l, d)
  {
    var rest := ls[t + 1..];
    assert ls == ls[..t] + ([ls[t]] + rest);
    assert ls[t := l] == ls[..t] + ([l] + rest);
    TotalConcat(ls[..t], [ls[t]] + rest, d);
    TotalConcat(ls[..t], [l] + rest, d);
    assert ([l] + rest)[1..] == rest && ([ls[t]] + rest)[1..] == rest;
  }

  lemma {:induction false} TotalAbsent(ls: seq<PostingList>, d: nat)
    requires forall t, i :: 0 <= t < |ls| && 0 <= i < |ls[t]| ==> ls[t][i].doc != d
    ensures Total(ls, d) == 0
  {
    if ls != [] {
      ScoreAbsent(ls[0], d);
      TotalAbsent(ls[1..], d);
    }
  }

  lemma {:induction false} CountUpdate(ls: seq<PostingList>, t: nat, l: PostingList)
    requires t < |ls|
    ensures Count(ls[t := l]) == Count(ls) - |ls[t]| + |l|
  {
    if t == 0 {
      assert ls[t := l][1..] == ls[1..];
    } else {
      assert ls[t := l][1..] == ls[1..][t - 1 := l];
      CountUpdate(ls[1..], t - 1, l);
    }
  }

  lemma SwapTotals(ls: seq<PostingList>, i: nat, j: nat)
    requires i < |ls| && j < |ls|
    ensures SameTotals(ls[i := ls[j]][j := ls[i]], ls)
    ensures Count(ls[i := ls[j]][j := ls[i]]) == Count(ls)
  {
    var once := ls[i := ls[j]];
    forall d: nat ensures Total(once[j := ls[i]], d) == Total(ls, d) {
      TotalUpdate(ls, i, ls[j], d);
      TotalUpdate(once, j, ls[i], d);
    }
    CountUpdate(ls, i, ls[j]);
    CountUpdate(once, j, ls[i]);
  }

  lemma {:induction false} CountZero(ls: seq<PostingList>)
    ensures Count(ls) == 0 <==> forall t :: 0 <= t < |ls| ==> ls[t] == []
  {
    if ls != [] {
      CountZero(ls[1..]);
      assert forall t :: 0 < t < |ls| ==> ls[t] == ls[1..][t - 1];
    }
  }

  // ---- Taking front postings ----

  /** The lists left after taking the front posting of list `t`. */
  function Advanced(ls: seq<PostingList>, t: nat): (r: seq<PostingList>)
    requires t < |ls| && ls[t] != []
    ensures |r| == |ls|
  {
    ls[t := ls[t][1..]]
  }

  lemma AdvanceTotal(ls: seq<PostingList>, t: nat, d: nat)
    requires t < |ls| && ls[t] != []
    ensures Total(ls, d)
         == Total(Advanced(ls, t), d) + (if ls[t][0].doc == d then ls[t][0].payload else 0)
  {
    TotalUpdate(ls, t, ls[t][1..], d);
  }

  /** Taking a front posting takes its document's mention and its payload. */
  lemma AdvanceMentions(ls: seq<PostingList>, t: nat, d: nat)
    requires t < |ls| && ls[t] != []
    ensures Mentions(ls, d) <==> Mentions(Advanced(ls, t), d) || ls[t][0].doc == d
  {
    var rest := Advanced(ls, t);
    if Mentions(ls, d) {
      var l: PostingList, i :| l in ls && 0 <= i < |l| && l[i].doc == d;
      var u :| 0 <= u < |ls| && ls[u] == l;
      if u != t {
        assert rest[u] == l;
      } else if i != 0 {
        assert rest[t][i - 1] == l[i] && rest[t] in rest;
      }
    }
    if Mentions(rest, d) {
      var l: PostingList, i :| l in rest && 0 <= i < |l| && l[i].doc == d;
      var u :| 0 <= u < |rest| && rest[u] == l;
      if u != t {
        assert ls[u] == l;
      } else {
        assert ls[t][i + 1] == l[i] && ls[t] in ls;
      }
    }
    if ls[t][0].doc == d {
      assert ls[t] in ls;
    }
  }

  lemma AdvanceSum(ls: seq<PostingList>, t: nat)
    requires t < |ls| && ls[t] != []
    ensures SumAll(ls) == SumAll(Advanced(ls, t)) + ls[t][0].payload
  {
    SumUpdate(ls, t, ls[t][1..]);
  }

  lemma NoMention(ls: seq<PostingList>, n: nat, d: nat)
    requires DocsFrom(ls, n) && d < n
    ensures !Mentions(ls, d)
  {
    forall l: PostingList, i | l in ls && 0 <= i < |l| ensures l[i].doc != d {
      var t :| 0 <= t < |ls| && ls[t] == l;
    }
  }

  // ---- The score board ----

  /** Scores of documents 0, 1, ... as offers, in that order. */
  function Board(scores: seq<int>): seq<Node<nat>> {
    if scores == [] then []
    else Board(scores[..|scores| - 1]) + [Node(scores[|scores| - 1], |scores| - 1)]
  }

  function Totals(ls: seq<PostingList>, n: nat): (r: seq<int>)
    ensures |r| == n
    ensures forall d :: 0 <= d < n ==> r[d] == Total(ls, d)
  {
    seq(n, (d: nat) => Total(ls, d))
  }

  lemma {:induction false} BoardAt(scores: seq<int>)
    ensures |Board(scores)| == |scores|
    ensures forall d :: 0 <= d < |scores| ==> Board(scores)[d] == Node(scores[d], d)
  {
    if scores != [] {
      BoardAt(scores[..|scores| - 1]);
    }
  }

  lemma BoardSnoc(ls: seq<PostingList>, n: nat)
    ensures Board(Totals(ls, n + 1)) == Board(Totals(ls, n)) + [Node(Total(ls, n), n)]
  {
    assert Totals(ls, n + 1)[..n] == Totals(ls, n);
  }

  lemma BoardStep(k: nat, lowest: int, ls: seq<PostingList>, n: nat)
    requires 1 <= k
    ensures Board(Totals(ls, n + 1)) == Board(Totals(ls, n)) + [Node(Total(ls, n), n)]
    ensures Run(k, lowest, Board(Totals(ls, n + 1)))
         == Offer(k, Run(k, lowest, Board(Totals(ls, n))), Node(Total(ls, n), n))
  {
    BoardSnoc(ls, n);
    RunSnoc(k, lowest, Board(Totals(ls, n)), Node(Total(ls, n), n));
  }

  /** Offering documents that score zero changes nothing, however many there are. */
  lemma {:induction false} ZerosAreNoOps(k: nat, lowest: int, ls: seq<PostingList>, m: nat, n: nat)
    requires 1 <= k && m <= n
    requires forall d: nat :: m <= d < n ==> Total(ls, d) == 0
    ensures Run(k, lowest, Board(Totals(ls, n))) == Run(k, lowest, Board(Totals(ls, m)))
  {
    if m < n {
      ZerosAreNoOps(k, lowest, ls, m, n - 1);
      BoardStep(k, lowest, ls, n - 1);
    }
  }

  /** The one answer every evaluation strategy must reach on `n` documents. */
  function Answer(k: nat, lowest: int, ls: seq<PostingList>, n: nat): Acc<nat>
    requires 1 <= k
  {
    Run(k, lowest, Board(Totals(ls, n)))
  }

  lemma NoDocumentsYet(k: nat, lowest: int, ls: seq<PostingList>)
    requires 1 <= k
    ensures Answer(k, lowest, ls, 0) == Run<nat>(k, lowest, [])
  {
  }

  /** Jumping over documents without postings to the next scored one advances the answer. */
  lemma OfferNext(k: nat, lowest: int, all: seq<PostingList>, next: nat, p: Posting, offered: seq<Node<nat>>)
    requires 1 <= k && next <= p.doc && p.payload == Total(all, p.doc)
    requires forall d: nat :: next <= d < p.doc ==> Total(all, d) == 0
    requires Run(k, lowest, offered) == Answer(k, lowest, all, next)
    ensures Run(k, lowest, offered + [Node(p.payload, p.doc)]) == Answer(k, lowest, all, p.doc + 1)
  {
    ZerosAreNoOps(k, lowest, all, next, p.doc);
    BoardStep(k, lowest, all, p.doc);
    RunSnoc(k, lowest, offered, Node(p.payload, p.doc));
  }

  lemma EligibleDocument(lowest: int, ls: seq<PostingList>, n: nat, e: Node<nat>)
    ensures e in Eligible(lowest, Board(Totals(ls, n)))
       <==> e.item < n && e.prio == Total(ls, e.item) && e.prio != 0 && lowest < e.prio
  {
    BoardAt(Totals(ls, n));
    if e.item < n {
      assert Board(Totals(ls, n))[e.item] == Node(Total(ls, e.item), e.item);
    }
  }

  lemma {:induction false} EligibleBelow<K(!new)>(lowest: int, es: seq<Node<K>>, x: Node<K>)
    ensures Eligible(lowest, es)[x] <= multiset(es)[x]
  {
    if es != [] {
      EligibleBelow(lowest, es[..|es| - 1], x);
      assert es == es[..|es| - 1] + [es[|es| - 1]];
    }
  }

  lemma {:induction false} BoardOnce(scores: seq<int>, e: Node<nat>)
    ensures multiset(Board(scores))[e] <= 1
  {
    if scores != [] {
      BoardOnce(scores[..|scores| - 1], e);
      BoardAt(scores[..|scores| - 1]);
    }
  }

  lemma TwiceIn<T(!new)>(s: seq<T>, i: nat, j: nat)
    requires i < j < |s| && s[i] == s[j]
    ensures 2 <= multiset(s)[s[i]]
  {
    assert s == s[..j] + s[j..];
    assert s[i] in multiset(s[..j]) && s[j..][0] in multiset(s[j..]);
  }

  /** The answer lists no document twice. */
  lemma AnswerIsDistinct(k: nat, lowest: int, ls: seq<PostingList>, n: nat, i: nat, j: nat)
    requires 1 <= k && i < j < |Answer(k, lowest, ls, n).top|
    ensures Answer(k, lowest, ls, n).top[i].item != Answer(k, lowest, ls, n).top[j].item
  {
    var board, top := Board(Totals(ls, n)), Answer(k, lowest, ls, n).top;
    RunSummarizes(k, lowest, board);
    EligibleBelow(lowest, board, top[i]);
    assert top[i] in multiset(top) && top[j] in multiset(top);
    EligibleDocument(lowest, ls, n, top[i]);
    EligibleDocument(lowest, ls, n, top[j]);
    BoardOnce(Totals(ls, n), top[i]);
    if top[i] == top[j] {
      TwiceIn(top, i, j);
    }
  }

  lemma LeftOutOfAll(k: nat, top: seq<Node<nat>>, all: multiset<Node<nat>>, x: Node<nat>)
    requires IsTopK(k, multiset(top), all) && x in all && x !in top
    ensures |top| == k && forall e :: e in top ==> x.prio <= e.prio
  {
    assert |multiset(top)| == |top|;
    SubsetSize(multiset(top), all);
    forall e | e in top ensures x.prio <= e.prio {
      assert e in multiset(top);
      LeftOut(k, multiset(top), all, x, e);
    }
  }

  /** The answer keeps at most k documents, each under its total score, and a scoring
      document it does not keep is beaten or matched by k kept ones. */
  lemma AnswerIsBest(k: nat, lowest: int, ls: seq<PostingList>, n: nat)
    requires 1 <= k
    ensures |Answer(k, lowest, ls, n).top| <= k
    ensures forall e :: e in Answer(k, lowest, ls, n).top ==>
      e.item < n && e.prio == Total(ls, e.item) && e.prio != 0 && lowest < e.prio
    ensures forall d :: 0 <= d < n && Total(ls, d) != 0 && lowest < Total(ls, d) ==>
      || Node(Total(ls, d), d) in Answer(k, lowest, ls, n).top
      || (|Answer(k, lowest, ls, n).top| == k &&
          forall e :: e in Answer(k, lowest, ls, n).top ==> Total(ls, d) <= e.prio)
  {
    var all := Eligible(lowest, Board(Totals(ls, n)));
    var top := Answer(k, lowest, ls, n).top;
    RunSummarizes(k, lowest, Board(Totals(ls, n)));
    RunSize(k, lowest, Board(Totals(ls, n)));
    forall e | e in top ensures e.item < n && e.prio == Total(ls, e.item) && e.prio != 0 && lowest < e.prio {
      assert e in multiset(top);
      EligibleDocument(lowest, ls, n, e);
    }
    forall d: nat | d < n && Total(ls, d) != 0 && lowest < Total(ls, d) && Node(Total(ls, d), d) !in top
      ensures |top| == k && forall e :: e in top ==> Total(ls, d) <= e.prio
    {
      EligibleDocument(lowest, ls, n, Node(Total(ls, d), d));
      LeftOutOfAll(k, top, all, Node(Total(ls, d), d));
    }
  }
}
