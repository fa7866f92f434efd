/**
 Rescoring a shard's results with global scorers: one forward pass over each term's
 postings, whatever order and scores the results came with.
 */
module Rescore {
  import opened Postings

  datatype Result = Result(doc: nat, score: real)

  type Scorer = (nat, int) -> real

  /** What one term contributes to a document: its scorer on the posting, if there is one. */
  function TermScore(l: PostingList, scorer: Scorer, d: nat): real {
    if l == [] then 0.0
    else if l[0].doc == d then scorer(d, l[0].payload)
    else TermScore(l[1..], scorer, d)
  }

  function GlobalScore(terms: seq<PostingList>, scorers: seq<Scorer>, d: nat): real
    requires |terms| == |scorers|
  {
    if terms == [] then 0.0
    else
      var last := |terms| - 1;
      GlobalScore(terms[..last], scorers[..last], d) + TermScore(terms[last], scorers[last], d)
  }

  lemma {:induction false} TermScoreAbsent(l: PostingList, scorer: Scorer, d: nat)
    requires forall i :: 0 <= i < |l| ==> l[i].doc != d
    ensures TermScore(l, scorer, d) == 0.0
  {
    if l != [] {
      TermScoreAbsent(l[1..], scorer, d);
    }
  }

  lemma {:induction false} TermScoreAt(l: PostingList, scorer: Scorer, i: nat)
    requires i < |l| && StrictlySorted(l)
    ensures TermScore(l, scorer, l[i].doc) == scorer(l[i].doc, l[i].payload)
  {
    if i != 0 {
      TermScoreAt(l[1..], scorer, i - 1);
    }
  }

  /** The partial sums of a document's global score, one term after the other. */
  lemma {:induction false} ScoreSums(terms: seq<PostingList>, scorers: seq<Scorer>, d: nat) returns (sums: seq<real>)
    requires |terms| == |scorers| && forall t :: 0 <= t < |terms| ==> StrictlySorted(terms[t])
    ensures |sums| == |terms| + 1 && sums[0] == 0.0 && sums[|terms|] == GlobalScore(terms, scorers, d)
    ensures forall t, p :: 0 <= t < |terms| && 0 <= p < |terms[t]| && terms[t][p].doc == d ==>
      sums[t + 1] == sums[t] + scorers[t](d, terms[t][p].payload)
    ensures forall t :: 0 <= t < |terms| && (forall p :: 0 <= p < |terms[t]| ==> terms[t][p].doc != d) ==>
      sums[t + 1] == sums[t]
  {
    hide TermScore, StrictlySorted;
    if terms == [] {
      sums := [0.0];
    } else {
      var last := |terms| - 1;
      var before := ScoreSums(terms[..last], scorers[..last], d);
      sums := before + [before[last] + TermScore(terms[last], scorers[last], d)];
      forall p | 0 <= p < |terms[last]| && terms[last][p].doc == d
        ensures sums[last + 1] == sums[last] + scorers[last](d, terms[last][p].payload)
      {
        TermScoreAt(terms[last], scorers[last], p);
      }
      if forall p :: 0 <= p < |terms[last]| ==> terms[last][p].doc != d {
        TermScoreAbsent(terms[last], scorers[last], d);
      }
      forall t | 0 <= t < last ensures terms[..last][t] == terms[t] && scorers[..last][t] == scorers[t] {
      }
    }
  }

  ghost predicate ByDocument(s: seq<Result>) {
    forall i, j :: 0 <= i <= j < |s| ==> s[i].doc <= s[j].doc
  }

  /** The documents of some results, as a bag. */
  ghost function Docs(s: seq<Result>): multiset<nat> {
    if s == [] then multiset{} else Docs(s[..|s| - 1]) + multiset{s[|s| - 1].doc}
  }

  lemma {:induction false} SameDocs(s: seq<Result>, t: seq<Result>)
    requires |s| == |t| && forall i :: 0 <= i < |s| ==> s[i].doc == t[i].doc
    ensures Docs(s) == Docs(t)
  {
    if s != [] {
      SameDocs(s[..|s| - 1], t[..|t| - 1]);
    }
  }

  lemma SameOrder(s: seq<Result>, t: seq<Result>)
    requires ByDocument(s) && |s| == |t| && forall i :: 0 <= i < |s| ==> s[i].doc == t[i].doc
    ensures ByDocument(t)
  {
  }

  function Insert(s: seq<Result>, e: Result): (r: seq<Result>)
    ensures |r| == |s| + 1
  {
    if s == [] || s[|s| - 1].doc <= e.doc then s + [e]
    else Insert(s[..|s| - 1], e) + [s[|s| - 1]]
  }

  lemma {:induction false} InsertKeeps(s: seq<Result>, e: Result, bound: nat)
    requires ByDocument(s) && e.doc <= bound && forall i :: 0 <= i < |s| ==> s[i].doc <= bound
    ensures ByDocument(Insert(s, e)) && forall i :: 0 <= i <= |s| ==> Insert(s, e)[i].doc <= bound
  {
    if s != [] && e.doc < s[|s| - 1].doc {
      InsertKeeps(s[..|s| - 1], e, s[|s| - 1].doc);
    }
  }

  lemma {:induction false} InsertedDocs(s: seq<Result>, e: Result)
    ensures Docs(Insert(s, e)) == Docs(s) + multiset{e.doc}
  {
    if s == [] || s[|s| - 1].doc <= e.doc {
      assert (s + [e])[..|s|] == s;
    } else {
      InsertedDocs(s[..|s| - 1], e);
      assert Insert(s, e)[..|s|] == Insert(s[..|s| - 1], e);
    }
  }

  lemma {:induction false} LastBounds(s: seq<Result>) returns (bound: nat)
    ensures forall i :: 0 <= i < |s| ==> s[i].doc <= bound
  {
    bound := 0;
    if s != [] {
      var rest := LastBounds(s[..|s| - 1]);
      bound := if rest <= s[|s| - 1].doc then s[|s| - 1].doc else rest;
      assert forall i :: 0 <= i < |s| - 1 ==> s[i] == s[..|s| - 1][i];
    }
  }

  /** `std::sort` by document. */
  method SortByDocument(s: seq<Result>) returns (r: seq<Result>)
    ensures |r| == |s| && ByDocument(r) && Docs(r) == Docs(s)
  {
    r := [];
    for i := 0 to |s|
      invariant |r| == i && ByDocument(r) && Docs(r) == Docs(s[..i])
    {
      assert s[..i + 1][..i] == s[..i];
      ghost var bound := LastBounds(r + [s[i]]);
      assert forall j :: 0 <= j <= |r| ==> (r + [s[i]])[j].doc <= bound;
      assert (r + [s[i]])[|r|] == s[i];
      assert forall j :: 0 <= j < |r| ==> (r + [s[i]])[j] == r[j];
      InsertKeeps(r, s[i], bound);
      InsertedDocs(r, s[i]);
      r := Insert(r, s[i]);
    }
    assert s[..|s|] == s;
  }

  /** Moves a posting position forward to the first document not before `doc`. */
  method AdvanceTo(l: PostingList, from: nat, doc: nat) returns (pos: nat)
    requires from <= |l| && forall i :: 0 <= i < from ==> l[i].doc < doc
    ensures from <= pos <= |l|
    ensures forall i :: 0 <= i < pos ==> l[i].doc < doc
    ensures pos < |l| ==> doc <= l[pos].doc
  {
    pos := from;
    while pos < |l| && l[pos].doc < doc
      invariant from <= pos <= |l|
      invariant forall i :: 0 <= i < pos ==> l[i].doc < doc
    {
      pos := pos + 1;
    }
  }

  /** Adds one term's contribution to every result. */
  method AddTerm(results: seq<Result>, l: PostingList, scorer: Scorer) returns (r: seq<Result>)
    requires ByDocument(results) && StrictlySorted(l)
    ensures |r| == |results|
    ensures forall i :: 0 <= i < |r| ==>
      r[i] == Result(results[i].doc, results[i].score + TermScore(l, scorer, results[i].doc))
  {
    r := results;
    var pos := 0;
    for i := 0 to |results|
      invariant |r| == |results| && 0 <= pos <= |l|
      invariant forall j :: 0 <= j < i ==>
        r[j] == Result(results[j].doc, results[j].score + TermScore(l, scorer, results[j].doc))
      invariant forall j :: i <= j < |r| ==> r[j] == results[j]
      invariant forall p, j :: 0 <= p < pos && i <= j < |r| ==> l[p].doc < results[j].doc
    {
      pos := AdvanceTo(l, pos, r[i].doc);
      if pos == |l| {
        forall j | i <= j < |r| ensures TermScore(l, scorer, results[j].doc) == 0.0 {
          TermScoreAbsent(l, scorer, results[j].doc);
        }
        break;
      }
      if l[pos].doc == r[i].doc {
        TermScoreAt(l, scorer, pos);
        r := r[i := Result(r[i].doc, r[i].score + scorer(l[pos].doc, l[pos].payload))];
      } else {
        TermScoreAbsent(l, scorer, r[i].doc);
      }
    }
  }

  /** The partial sums of the scores of some documents. */
  lemma AllScoreSums(terms: seq<PostingList>, scorers: seq<Scorer>, docs: seq<nat>) returns (sums: seq<seq<real>>)
    requires |terms| == |scorers| && forall t :: 0 <= t < |terms| ==> StrictlySorted(terms[t])
    ensures |sums| == |docs|
    ensures forall i :: 0 <= i < |docs| ==>
      |sums[i]| == |terms| + 1 && sums[i][0] == 0.0 && sums[i][|terms|] == GlobalScore(terms, scorers, docs[i])
    ensures forall i, t, p :: 0 <= i < |docs| && 0 <= t < |terms| && 0 <= p < |terms[t]|
                              && terms[t][p].doc == docs[i] ==>
      sums[i][t + 1] == sums[i][t] + scorers[t](docs[i], terms[t][p].payload)
    ensures forall i, t :: 0 <= i < |docs| && 0 <= t < |terms|
                           && (forall p :: 0 <= p < |terms[t]| ==> terms[t][p].doc != docs[i]) ==>
      sums[i][t + 1] == sums[i][t]
  {
    hide StrictlySorted, GlobalScore;
    sums := [];
    for k := 0 to |docs|
      invariant |sums| == k
      invariant forall i :: 0 <= i < k ==>
        |sums[i]| == |terms| + 1 && sums[i][0] == 0.0 && sums[i][|terms|] == GlobalScore(terms, scorers, docs[i])
      invariant forall i, t, p :: 0 <= i < k && 0 <= t < |terms| && 0 <= p < |terms[t]|
                                  && terms[t][p].doc == docs[i] ==>
        sums[i][t + 1] == sums[i][t] + scorers[t](docs[i], terms[t][p].payload)
      invariant forall i, t :: 0 <= i < k && 0 <= t < |terms|
                               && (forall p :: 0 <= p < |terms[t]| ==> terms[t][p].doc != docs[i]) ==>
        sums[i][t + 1] == sums[i][t]
    {
      var one := ScoreSums(terms, scorers, docs[k]);
      sums := sums + [one];
    }
  }

  /** The results end sorted by document, each with the sum of its terms' global scores: `sums`
      are its partial sums, and every term of the query adds what its scorer gives the posting
      of the document, if there is one. */
  method Rescore(results: seq<Result>, terms: seq<PostingList>, scorers: seq<Scorer>)
    returns (r: seq<Result>, ghost sums: seq<seq<real>>)
    requires |terms| == |scorers| && forall t :: 0 <= t < |terms| ==> StrictlySorted(terms[t])
    ensures |r| == |results| == |sums| && ByDocument(r) && Docs(r) == Docs(results)
    ensures forall i :: 0 <= i < |r| ==>
      |sums[i]| == |terms| + 1 && sums[i][0] == 0.0 && sums[i][|terms|] == r[i].score
    ensures forall i, t, p :: 0 <= i < |r| && 0 <= t < |terms| && 0 <= p < |terms[t]| && terms[t][p].doc == r[i].doc ==>
      sums[i][t + 1] == sums[i][t] + scorers[t](r[i].doc, terms[t][p].payload)
    ensures forall i, t :: 0 <= i < |r| && 0 <= t < |terms|
                           && (forall p :: 0 <= p < |terms[t]| ==> terms[t][p].doc != r[i].doc) ==>
      sums[i][t + 1] == sums[i][t]
  {
    hide ByDocument, Docs, StrictlySorted, TermScore;
    var sorted := SortByDocument(results);
    r := seq(|sorted|, i requires 0 <= i < |sorted| => Result(sorted[i].doc, 0.0));
    SameDocs(sorted, r);
    SameOrder(sorted, r);
    for t := 0 to |terms|
      invariant |r| == |results| && ByDocument(r) && Docs(r) == Docs(results)
      invariant forall i :: 0 <= i < |r| ==> r[i].score == GlobalScore(terms[..t], scorers[..t], r[i].doc)
    {
      ghost var before := r;
      assert terms[..t + 1][..t] == terms[..t] && scorers[..t + 1][..t] == scorers[..t];
      r := AddTerm(r, terms[t], scorers[t]);
      SameDocs(before, r);
      SameOrder(before, r);
    }
    assert terms[..|terms|] == terms && scorers[..|scorers|] == scorers;
    ghost var docs := seq(|r|, i requires 0 <= i < |r| => r[i].doc);
    sums := AllScoreSums(terms, scorers, docs);
    assert forall i :: 0 <= i < |r| ==> docs[i] == r[i].doc;
  }
}
