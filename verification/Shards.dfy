/**
 Sharded search with precomputed scores: every shard answers with its own k best
 documents, and one more accumulator merges the answers under the documents' titles.
 */
module Shards {
  import opened Heap
  import opened TopK
  import opened Options
  import opened Postings
  import Taat
  import Daat

  datatype ProcessingType = TAAT | DAAT

  /** The query's posting lists in one shard, and the shard's document titles. */
  datatype Shard = Shard(lists: seq<PostingList>, titles: seq<string>)

  ghost predicate ValidShard(s: Shard) {
    DocsBelow(s.lists, |s.titles|) && Daat.AllStrictlySorted(s.lists)
  }

  ghost predicate InRange(es: seq<Node<nat>>, n: nat) {
    forall i :: 0 <= i < |es| ==> es[i].item < n
  }

  ghost function Title(titles: seq<string>, d: nat): string {
    if d < |titles| then titles[d] else ""
  }

  /** The same entries under the documents' titles. */
  ghost function Titled(titles: seq<string>, es: seq<Node<nat>>): (r: seq<Node<string>>)
    ensures |r| == |es|
    ensures forall i :: 0 <= i < |es| ==> r[i] == Node(es[i].prio, Title(titles, es[i].item))
  {
    seq(|es|, i requires 0 <= i < |es| => Node(es[i].prio, Title(titles, es[i].item)))
  }

  ghost function Documents(s: Shard): seq<Node<string>> {
    Titled(s.titles, Board(Totals(s.lists, |s.titles|)))
  }

  /** Every document of every shard with its total score. */
  ghost function AllDocuments(shards: seq<Shard>): seq<Node<string>> {
    if shards == [] then []
    else AllDocuments(shards[..|shards| - 1]) + Documents(shards[|shards| - 1])
  }

  ghost function Filtered<K(!new)>(lowest: int, es: seq<Node<K>>): (r: seq<Node<K>>)
    ensures forall e :: e in r ==> e in es
  {
    if es == [] then []
    else
      var e := es[|es| - 1];
      Filtered(lowest, es[..|es| - 1]) + (if e.prio != 0 && lowest < e.prio then [e] else [])
  }

  lemma {:induction false} FilteredIsEligible<K(!new)>(lowest: int, es: seq<Node<K>>)
    ensures multiset(Filtered(lowest, es)) == Eligible(lowest, es)
  {
    if es != [] {
      FilteredIsEligible(lowest, es[..|es| - 1]);
    }
  }

  lemma {:induction false} FilteredTitled(lowest: int, titles: seq<string>, es: seq<Node<nat>>)
    ensures Filtered(lowest, Titled(titles, es)) == Titled(titles, Filtered(lowest, es))
  {
    hide Title;
    if es != [] {
      var init := es[..|es| - 1];
      FilteredTitled(lowest, titles, init);
      assert Titled(titles, es)[..|es| - 1] == Titled(titles, init);
    }
  }

  lemma {:induction false} EligibleConcat<K(!new)>(lowest: int, a: seq<Node<K>>, b: seq<Node<K>>)
    ensures Eligible(lowest, a + b) == Eligible(lowest, a) + Eligible(lowest, b)
  {
    if b == [] {
      assert a + b == a;
    } else {
      var init, e := b[..|b| - 1], b[|b| - 1];
      assert a + b == (a + init) + [e] && b == init + [e];
      EligibleConcat(lowest, a, init);
      EligibleSnoc(lowest, a + init, e);
      EligibleSnoc(lowest, init, e);
    }
  }

  lemma SameRest<T(!new)>(a: multiset<T>, b: multiset<T>, x: T)
    requires a + multiset{x} == b + multiset{x}
    ensures a == b
  {
    assert a == a + multiset{x} - multiset{x} && b == b + multiset{x} - multiset{x};
  }

  /** All but one element. */
  ghost function Without<T(!new)>(s: seq<T>, j: nat): (r: seq<T>)
    requires j < |s|
    ensures |r| == |s| - 1
  {
    s[..j] + s[j + 1..]
  }

  lemma SplitAt<T(!new)>(s: seq<T>, j: nat)
    requires j < |s|
    ensures multiset(s) == multiset(Without(s, j)) + multiset{s[j]}
  {
    assert s == s[..j] + [s[j]] + s[j + 1..];
  }

  lemma TitledSplit(titles: seq<string>, s: seq<Node<nat>>, j: nat)
    requires j < |s|
    ensures multiset(Titled(titles, s))
         == multiset(Titled(titles, Without(s, j))) + multiset{Node(s[j].prio, Title(titles, s[j].item))}
  {
    SplitAt(Titled(titles, s), j);
    assert Without(Titled(titles, s), j) == Titled(titles, Without(s, j));
  }

  /** Some position holds the first element of a rearrangement. */
  lemma FirstOf<T(!new)>(a: seq<T>, b: seq<T>) returns (j: nat)
    requires multiset(a) == multiset(b) && a != []
    ensures j < |b| && b[j] == a[0]
  {
    assert a[0] in multiset(b);
    j :| 0 <= j < |b| && b[j] == a[0];
  }

  lemma NoneOf<T(!new)>(b: seq<T>)
    requires multiset(b) == multiset([])
    ensures b == []
  {
    assert |multiset(b)| == |b|;
  }

  /** Rearranging entries rearranges their titled images. */
  lemma {:induction false} TitledPermutes(titles: seq<string>, a: seq<Node<nat>>, b: seq<Node<nat>>)
    requires multiset(a) == multiset(b)
    ensures multiset(Titled(titles, a)) == multiset(Titled(titles, b))
    decreases |a|
  {
    hide Titled, Without;
    if a == [] {
      NoneOf(b);
    } else {
      var j := FirstOf(a, b);
      SplitAt(b, j);
      SplitAt(a, 0);
      SameRest(multiset(Without(a, 0)), multiset(Without(b, j)), a[0]);
      TitledPermutes(titles, Without(a, 0), Without(b, j));
      TitledSplit(titles, b, j);
      TitledSplit(titles, a, 0);
    }
  }

  ghost function Listed<T(!new)>(m: multiset<T>): (s: seq<T>)
    ensures multiset(s) == m
  {
    if m == multiset{} then []
    else
      var x :| x in m;
      Listed(m - multiset{x}) + [x]
  }

  lemma TitledMember(titles: seq<string>, es: seq<Node<nat>>, x: Node<string>) returns (e: Node<nat>)
    requires x in multiset(Titled(titles, es))
    ensures e in multiset(es) && e.prio == x.prio
  {
    var i :| 0 <= i < |es| && Titled(titles, es)[i] == x;
    e := es[i];
  }

  lemma RestoresWhole<T(!new)>(whole: multiset<T>, part: multiset<T>)
    requires part <= whole
    ensures part + (whole - part) == whole
  {
  }

  lemma TitledConcat(titles: seq<string>, a: seq<Node<nat>>, b: seq<Node<nat>>)
    ensures Titled(titles, a + b) == Titled(titles, a) + Titled(titles, b)
  {
  }

  lemma TitledRest(titles: seq<string>, r: seq<Node<nat>>, es: seq<Node<nat>>) returns (left: seq<Node<nat>>)
    requires multiset(r) <= multiset(es)
    ensures multiset(left) == multiset(es) - multiset(r)
    ensures multiset(Titled(titles, es)) == multiset(Titled(titles, r)) + multiset(Titled(titles, left))
  {
    hide Titled, Listed;
    left := Listed(multiset(es) - multiset(r));
    RestoresWhole(multiset(es), multiset(r));
    TitledPermutes(titles, r + left, es);
    TitledConcat(titles, r, left);
  }

  lemma SizeOf<T(!new)>(s: seq<T>)
    ensures |multiset(s)| == |s|
  {
  }

  lemma KeptOf<K(!new)>(k: nat, kept: multiset<Node<K>>, rest: multiset<Node<K>>)
    requires |kept| == Min(k, |kept + rest|)
    requires forall x, y :: x in rest && y in kept ==> x.prio <= y.prio
    ensures IsTopK(k, kept, kept + rest)
  {
    forall x | x in kept + rest - kept ensures x in rest {
    }
  }

  /** The k best entries stay the k best under their titles. */
  lemma TitledTopK(k: nat, titles: seq<string>, r: seq<Node<nat>>, es: seq<Node<nat>>)
    requires IsTopK(k, multiset(r), multiset(es))
    ensures IsTopK(k, multiset(Titled(titles, r)), multiset(Titled(titles, es)))
  {
    var left := TitledRest(titles, r, es);
    var kept, rest := multiset(Titled(titles, r)), multiset(Titled(titles, left));
    SizeOf(r);
    SizeOf(es);
    SizeOf(Titled(titles, r));
    SizeOf(Titled(titles, es));
    forall x, y | x in rest && y in kept ensures x.prio <= y.prio {
      var e := TitledMember(titles, left, x);
      var f := TitledMember(titles, r, y);
    }
    hide Titled;
    KeptOf(k, kept, rest);
  }

  lemma {:induction false} AllFiltered<K(!new)>(lowest: int, es: seq<Node<K>>)
    requires forall i :: 0 <= i < |es| ==> es[i].prio != 0 && lowest < es[i].prio
    ensures Filtered(lowest, es) == es
  {
    if es != [] {
      AllFiltered(lowest, es[..|es| - 1]);
      assert es == es[..|es| - 1] + [es[|es| - 1]];
    }
  }

  lemma AnswerEntries(s: Shard, k: nat, lowest: int, r: seq<Node<nat>>)
    requires 1 <= k && r == SortDescending(Answer(k, lowest, s.lists, |s.titles|).top)
    ensures forall i :: 0 <= i < |r| ==> r[i].item < |s.titles| && r[i].prio != 0 && lowest < r[i].prio
  {
    var board := Board(Totals(s.lists, |s.titles|));
    RunSummarizes(k, lowest, board);
    forall i | 0 <= i < |r| ensures r[i].item < |s.titles| && r[i].prio != 0 && lowest < r[i].prio {
      assert r[i] in multiset(r);
      assert r[i] in Eligible(lowest, board);
      EligibleDocument(lowest, s.lists, |s.titles|, r[i]);
    }
  }

  /** One shard's titled answer is a top-k choice among its documents. */
  lemma ShardAnswer(s: Shard, k: nat, lowest: int, r: seq<Node<nat>>)
    requires 1 <= k && r == SortDescending(Answer(k, lowest, s.lists, |s.titles|).top)
    ensures InRange(r, |s.titles|)
    ensures IsTopK(k, multiset(Titled(s.titles, r)), Eligible(lowest, Documents(s)))
    ensures Eligible(lowest, Titled(s.titles, r)) == multiset(Titled(s.titles, r))
  {
    hide Run, IsTopK, Board, Titled, Filtered, Eligible;
    var board := Board(Totals(s.lists, |s.titles|));
    RunSummarizes(k, lowest, board);
    FilteredIsEligible(lowest, board);
    FilteredTitled(lowest, s.titles, board);
    FilteredIsEligible(lowest, Titled(s.titles, board));
    TitledTopK(k, s.titles, r, Filtered(lowest, board));
    AnswerEntries(s, k, lowest, r);
    AllFiltered(lowest, Titled(s.titles, r));
    FilteredIsEligible(lowest, Titled(s.titles, r));
  }

  /** A run survives a shard unless it goes by documents and the shard has none of the terms. */
  ghost predicate Survives(s: Shard, proctype: ProcessingType) {
    proctype == DAAT ==> Daat.AnyPosting(s.lists)
  }

  lemma SomeFail(shards: seq<Shard>, proctype: ProcessingType)
    ensures (exists s :: s in shards && !Survives(s, proctype)) <==>
      (proctype == DAAT && exists s :: s in shards && forall t :: 0 <= t < |s.lists| ==> s.lists[t] == [])
  {
    forall s | s in shards
      ensures !Survives(s, proctype) <==>
        (proctype == DAAT && forall t :: 0 <= t < |s.lists| ==> s.lists[t] == [])
    {
    }
  }

  /** `run_query` on precomputed scores. */
  method RunQuery(s: Shard, k: nat, lowest: int, proctype: ProcessingType) returns (r: Option<seq<Node<nat>>>)
    requires 1 <= k && ValidShard(s) && |s.titles| <= 0x7FFF_FFFF
    ensures r == None <==> (proctype == DAAT && forall t :: 0 <= t < |s.lists| ==> s.lists[t] == [])
    ensures r.Some? ==> r.value == SortDescending(Answer(k, lowest, s.lists, |s.titles|).top)
  {
    match proctype {
      case TAAT =>
        var result := Taat.TaatQuery(s.lists, |s.titles|, k, lowest);
        r := Some(result);
      case DAAT =>
        Daat.WithinHorizon(k, lowest, s.lists, |s.titles|);
        r := Daat.DaatQuery(s.lists, k, lowest);
    }
  }

  /** Offers one shard's results under their titles. */
  method OfferResults(titles: seq<string>, results: seq<Node<nat>>, acc: TopKAccumulator<string>)
    requires acc.Valid() && InRange(results, |titles|)
    modifies acc
    ensures acc.Valid() && acc.offered == old(acc.offered) + Titled(titles, results)
  {
    for i := 0 to |results|
      invariant acc.Valid() && acc.offered == old(acc.offered) + Titled(titles, results)[..i]
    {
      var _ := acc.Accumulate(titles[results[i].item], results[i].prio);
    }
  }

  lemma CoverNextShard(k: nat, lowest: int, offered: seq<Node<string>>, results: seq<Node<string>>,
                       seen: seq<Node<string>>, documents: seq<Node<string>>)
    requires Covers(k, Eligible(lowest, offered), Eligible(lowest, seen))
    requires IsTopK(k, multiset(results), Eligible(lowest, documents))
    requires Eligible(lowest, results) == multiset(results)
    ensures Covers(k, Eligible(lowest, offered + results), Eligible(lowest, seen + documents))
  {
    hide Covers, IsTopK, Eligible;
    EligibleConcat(lowest, offered, results);
    EligibleConcat(lowest, seen, documents);
    TopKCovers(k, multiset(results), Eligible(lowest, documents));
    CoversAdd(k, Eligible(lowest, offered), Eligible(lowest, seen), multiset(results), Eligible(lowest, documents));
  }

  lemma NothingToCover(k: nat, lowest: int)
    ensures Covers(k, Eligible<string>(lowest, []), Eligible(lowest, AllDocuments([])))
  {
  }

  lemma SameAsWhole(k: nat, lowest: int, all: seq<Node<string>>, r: seq<Node<string>>)
    requires 1 <= k && Descending(r) && IsTopK(k, multiset(r), Eligible(lowest, all))
    ensures var whole := SortDescending(Run(k, lowest, all).top);
      |r| == |whole| && forall i :: 0 <= i < |r| ==> r[i].prio == whole[i].prio
  {
    RunSummarizes(k, lowest, all);
    TopKScoresUnique(k, r, SortDescending(Run(k, lowest, all).top), Eligible(lowest, all));
  }

  lemma DocumentsSnoc(shards: seq<Shard>, i: nat)
    requires i < |shards|
    ensures AllDocuments(shards[..i + 1]) == AllDocuments(shards[..i]) + Documents(shards[i])
  {
    assert shards[..i + 1][..i] == shards[..i];
  }

  /** Offers one shard's answer, if the run survives it. */
  method OfferShard(s: Shard, proctype: ProcessingType, acc: TopKAccumulator<string>, ghost seen: seq<Node<string>>)
    returns (ok: bool)
    requires acc.Valid() && ValidShard(s) && |s.titles| <= 0x7FFF_FFFF
    requires Covers(acc.k, Eligible(acc.lowest, acc.offered), Eligible(acc.lowest, seen))
    modifies acc
    ensures acc.Valid() && (ok <==> Survives(s, proctype))
    ensures ok ==> Covers(acc.k, Eligible(acc.lowest, acc.offered), Eligible(acc.lowest, seen + Documents(s)))
  {
    hide TopKAccumulator.Valid, IsTopK, Eligible, Covers, Run, Board, Totals, Documents, Titled, ValidShard, InRange;
    ghost var before := acc.offered;
    acc.AtLeastOne();
    var results := RunQuery(s, acc.k, acc.lowest, proctype);
    if results == None {
      return false;
    }
    ShardAnswer(s, acc.k, acc.lowest, results.value);
    OfferResults(s.titles, results.value, acc);
    CoverNextShard(acc.k, acc.lowest, before, Titled(s.titles, results.value), seen, Documents(s));
    ok := true;
  }

  /** Offers the shards' answers one after the other, as long as the run survives. */
  method OfferShards(shards: seq<Shard>, proctype: ProcessingType, acc: TopKAccumulator<string>)
    returns (ok: bool)
    requires acc.Valid() && acc.offered == []
    requires forall i :: 0 <= i < |shards| ==> ValidShard(shards[i]) && |shards[i].titles| <= 0x7FFF_FFFF
    modifies acc
    ensures acc.Valid() && (!ok <==> exists s :: s in shards && !Survives(s, proctype))
    ensures ok ==> Covers(acc.k, Eligible(acc.lowest, acc.offered), Eligible(acc.lowest, AllDocuments(shards)))
  {
    hide TopKAccumulator.Valid, Eligible, Covers, Survives, AllDocuments, Documents, ValidShard;
    NothingToCover(acc.k, acc.lowest);
    assert shards[..0] == [];
    for i := 0 to |shards|
      invariant acc.Valid()
      invariant Covers(acc.k, Eligible(acc.lowest, acc.offered), Eligible(acc.lowest, AllDocuments(shards[..i])))
      invariant forall j :: 0 <= j < i ==> Survives(shards[j], proctype)
    {
      ok := OfferShard(shards[i], proctype, acc, AllDocuments(shards[..i]));
      if !ok {
        return;
      }
      DocumentsSnoc(shards, i);
    }
    assert shards[..|shards|] == shards;
    ok := true;
  }

  /** The documents of a shard under their titles. */
  lemma DocumentAt(s: Shard, d: nat)
    requires d < |s.titles|
    ensures |Documents(s)| == |s.titles| && Documents(s)[d] == Node(Total(s.lists, d), s.titles[d])
  {
    BoardAt(Totals(s.lists, |s.titles|));
  }

  lemma PlaceOf(s: Shard, e: Node<string>) returns (d: nat)
    requires e in Documents(s)
    ensures d < |s.titles| && e == Node(Total(s.lists, d), s.titles[d])
  {
    BoardAt(Totals(s.lists, |s.titles|));
    d :| 0 <= d < |Documents(s)| && Documents(s)[d] == e;
    DocumentAt(s, d);
  }

  lemma {:induction false} DocumentOf(shards: seq<Shard>, e: Node<string>) returns (i: nat, d: nat)
    requires e in AllDocuments(shards)
    ensures i < |shards| && d < |shards[i].titles|
    ensures e.item == shards[i].titles[d] && e.prio == Total(shards[i].lists, d)
  {
    hide Documents;
    var last := |shards| - 1;
    if e in AllDocuments(shards[..last]) {
      i, d := DocumentOf(shards[..last], e);
    } else {
      i := last;
      d := PlaceOf(shards[last], e);
    }
  }

  lemma {:induction false} DocumentListed(shards: seq<Shard>, i: nat, d: nat)
    requires i < |shards| && d < |shards[i].titles|
    ensures Node(Total(shards[i].lists, d), shards[i].titles[d]) in AllDocuments(shards)
  {
    hide Documents;
    var last := |shards| - 1;
    if i < last {
      DocumentListed(shards[..last], i, d);
    } else {
      DocumentAt(shards[last], d);
      assert Documents(shards[last])[d] in Documents(shards[last]);
    }
  }

  /** Results come from documents of shards, under their titles. */
  lemma ResultsAreDocuments(shards: seq<Shard>, k: nat, lowest: int, r: seq<Node<string>>)
    requires IsTopK(k, multiset(r), Eligible(lowest, AllDocuments(shards)))
    ensures |r| <= k
    ensures forall e :: e in r ==>
      exists i, d :: 0 <= i < |shards| && 0 <= d < |shards[i].titles|
                     && e.item == shards[i].titles[d] && e.prio == Total(shards[i].lists, d)
    ensures forall e :: e in r ==> e.prio != 0 && lowest < e.prio
  {
    hide AllDocuments;
    SizeOf(r);
    forall e | e in r
      ensures e.prio != 0 && lowest < e.prio
      ensures exists i, d :: 0 <= i < |shards| && 0 <= d < |shards[i].titles|
                             && e.item == shards[i].titles[d] && e.prio == Total(shards[i].lists, d)
    {
      assert e in multiset(r);
      var i, d := DocumentOf(shards, e);
    }
  }

  /** A scoring document is a result, or k results score at least as much. */
  lemma DocumentsAreResults(shards: seq<Shard>, k: nat, lowest: int, r: seq<Node<string>>, i: nat, d: nat)
    requires IsTopK(k, multiset(r), Eligible(lowest, AllDocuments(shards)))
    requires i < |shards| && d < |shards[i].titles|
    requires Total(shards[i].lists, d) != 0 && lowest < Total(shards[i].lists, d)
    ensures Node(Total(shards[i].lists, d), shards[i].titles[d]) in r
         || (|r| == k && forall e :: e in r ==> Total(shards[i].lists, d) <= e.prio)
  {
    hide AllDocuments;
    DocumentListed(shards, i, d);
    var x, all := Node(Total(shards[i].lists, d), shards[i].titles[d]), Eligible(lowest, AllDocuments(shards));
    if x !in r {
      assert x in all - multiset(r);
      SizeOf(r);
      SubsetSize(multiset(r), all);
      forall e | e in r ensures x.prio <= e.prio {
        assert e in multiset(r);
      }
    }
  }

  /** Merging the shards' answers is exact: the result is a choice of the k best over all
      documents of all shards, under their titles, so rank by rank it has the scores an
      unsharded run has. */
  method RunShards(shards: seq<Shard>, k: nat, lowest: int, proctype: ProcessingType)
    returns (r: Option<seq<Node<string>>>)
    requires 1 <= k
    requires forall i :: 0 <= i < |shards| ==> ValidShard(shards[i]) && |shards[i].titles| <= 0x7FFF_FFFF
    ensures r == None <==>
      (proctype == DAAT && exists s :: s in shards && forall t :: 0 <= t < |s.lists| ==> s.lists[t] == [])
    ensures r.Some? ==> Descending(r.value) && |r.value| <= k
    ensures r.Some? ==> forall e :: e in r.value ==>
      exists i, d :: 0 <= i < |shards| && 0 <= d < |shards[i].titles|
                     && e.item == shards[i].titles[d] && e.prio == Total(shards[i].lists, d)
    ensures r.Some? ==> forall e :: e in r.value ==> e.prio != 0 && lowest < e.prio
    ensures r.Some? ==>
      forall i, d :: 0 <= i < |shards| && 0 <= d < |shards[i].titles|
                     && Total(shards[i].lists, d) != 0 && lowest < Total(shards[i].lists, d) ==>
        || Node(Total(shards[i].lists, d), shards[i].titles[d]) in r.value
        || (|r.value| == k && forall e :: e in r.value ==> Total(shards[i].lists, d) <= e.prio)
    ensures r.Some? ==> IsTopK(k, multiset(r.value), Eligible(lowest, AllDocuments(shards)))
    ensures r.Some? ==>
      (var whole := SortDescending(Run(k, lowest, AllDocuments(shards)).top);
       |r.value| == |whole| && forall i :: 0 <= i < |whole| ==> r.value[i].prio == whole[i].prio)
  {
    hide TopKAccumulator.Valid, IsTopK, Eligible, Covers, Survives, Run, AllDocuments;
    SomeFail(shards, proctype);
    var acc := new TopKAccumulator<string>(k, lowest);
    var ok := OfferShards(shards, proctype, acc);
    if !ok {
      return None;
    }
    var sorted := acc.Sorted();
    TopKOfCover(k, multiset(sorted), Eligible(lowest, acc.offered), Eligible(lowest, AllDocuments(shards)));
    SameAsWhole(k, lowest, AllDocuments(shards), sorted);
    ResultsAreDocuments(shards, k, lowest, sorted);
    forall i, d | 0 <= i < |shards| && 0 <= d < |shards[i].titles|
                  && Total(shards[i].lists, d) != 0 && lowest < Total(shards[i].lists, d)
      ensures Node(Total(shards[i].lists, d), shards[i].titles[d]) in sorted
           || (|sorted| == k && forall e :: e in sorted ==> Total(shards[i].lists, d) <= e.prio)
    {
      DocumentsAreResults(shards, k, lowest, sorted, i, d);
    }
    r := Some(sorted);
  }
}
