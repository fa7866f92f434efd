/**
 Static document ranks (`irk-docidmap`): the two tables that map documents to ranks and
 back, and term-at-a-time evaluation through such a table.
 */
module DocMap {
  import opened Postings

  /** The documents named by the ordering, in its order; unknown titles are skipped. */
  function Listed(ordering: seq<string>, indexAt: map<string, nat>): seq<nat> {
    if ordering == [] then []
    else
      var title := ordering[|ordering| - 1];
      Listed(ordering[..|ordering| - 1], indexAt) + (if title in indexAt then [indexAt[title]] else [])
  }

  /** The lines of the ordering that name a document: all of them, in order, and what they name. */
  lemma {:induction false} ListedLines(ordering: seq<string>, indexAt: map<string, nat>) returns (lines: seq<nat>)
    ensures |lines| == |Listed(ordering, indexAt)|
    ensures forall k :: 0 <= k < |lines| ==> lines[k] < |ordering| && ordering[lines[k]] in indexAt
    ensures forall k :: 0 <= k < |lines| ==> Listed(ordering, indexAt)[k] == indexAt[ordering[lines[k]]]
    ensures forall k, m :: 0 <= k < m < |lines| ==> lines[k] < lines[m]
    ensures forall line :: 0 <= line < |ordering| && ordering[line] in indexAt ==> line in lines
  {
    if ordering == [] {
      lines := [];
    } else {
      var last := |ordering| - 1;
      var init := ordering[..last];
      lines := ListedLines(init, indexAt);
      forall line | 0 <= line < last ensures init[line] == ordering[line] {
      }
      if ordering[last] in indexAt {
        lines := lines + [last];
      }
    }
  }

  ghost predicate NoRepeats(s: seq<nat>) {
    forall i, j :: 0 <= i < j < |s| ==> s[i] != s[j]
  }

  ghost function Elements(s: seq<nat>): set<nat> {
    set i | 0 <= i < |s| :: s[i]
  }

  ghost function Below(n: nat): (r: set<nat>)
    ensures forall d: nat :: d in r <==> d < n
    ensures |r| == n
  {
    if n == 0 then {} else Below(n - 1) + {n - 1}
  }

  lemma ElementsSnoc(s: seq<nat>, d: nat)
    ensures Elements(s + [d]) == Elements(s) + {d}
  {
    forall x | x in Elements(s) + {d} ensures x in Elements(s + [d]) {
      if x == d {
        assert (s + [d])[|s|] == d;
      } else {
        var i :| 0 <= i < |s| && s[i] == x;
        assert (s + [d])[i] == x;
      }
    }
  }

  lemma NoRepeatsSnoc(s: seq<nat>, d: nat)
    ensures NoRepeats(s + [d]) <==> (NoRepeats(s) && d !in Elements(s))
  {
    var longer := s + [d];
    assert longer[|s|] == d && forall i :: 0 <= i < |s| ==> longer[i] == s[i];
    if NoRepeats(longer) {
      forall i | 0 <= i < |s| ensures s[i] != d {
        assert longer[i] != longer[|s|];
      }
      forall i, j | 0 <= i < j < |s| ensures s[i] != s[j] {
        assert longer[i] != longer[j];
      }
    }
  }

  lemma CountWith(a: set<nat>, d: nat)
    ensures |a + {d}| == if d in a then |a| else |a| + 1
  {
    if d in a {
      assert a + {d} == a;
    }
  }

  /** A sequence has as many distinct elements as positions exactly when it repeats none. */
  lemma {:induction false} DistinctCount(s: seq<nat>)
    ensures |Elements(s)| <= |s|
    ensures |Elements(s)| == |s| <==> NoRepeats(s)
  {
    if s != [] {
      hide NoRepeats, Elements;
      var init, d := s[..|s| - 1], s[|s| - 1];
      assert s == init + [d];
      DistinctCount(init);
      ElementsSnoc(init, d);
      NoRepeatsSnoc(init, d);
      CountWith(Elements(init), d);
    }
  }

  lemma SubsetCount(a: set<nat>, b: set<nat>)
    requires a <= b
    ensures |a| <= |b|
  {
    assert b == a + (b - a);
  }

  lemma ElementsBelow(s: seq<nat>, n: nat)
    requires forall i :: 0 <= i < |s| ==> s[i] < n
    ensures |Elements(s)| <= n
  {
    SubsetCount(Elements(s), Below(n));
  }

  /** Both tables agree on the ranks given so far; `n` marks a document without a rank. */
  ghost predicate Consistent(doc2rank: seq<nat>, ranks: seq<nat>, n: nat) {
    && |doc2rank| == n && |ranks| <= n
    && (forall r :: 0 <= r < |ranks| ==> ranks[r] < n)
    && (forall d :: 0 <= d < n && doc2rank[d] != n ==> doc2rank[d] < |ranks| && ranks[doc2rank[d]] == d)
    && (forall r :: 0 <= r < |ranks| ==> doc2rank[ranks[r]] != n)
  }

  lemma ConsistentStep(doc2rank: seq<nat>, ranks: seq<nat>, n: nat, d: nat)
    requires Consistent(doc2rank, ranks, n) && d < n && |ranks| < n
    ensures Consistent(doc2rank[d := |ranks|], ranks + [d], n)
  {
  }

  method GiveRank(n: nat, docid: nat, rank: nat, doc2rank: array<nat>, rank2doc: array<nat>) returns (next: nat)
    requires doc2rank != rank2doc && doc2rank.Length == rank2doc.Length == n
    requires docid < n && rank < n && Consistent(doc2rank[..], rank2doc[..rank], n)
    modifies doc2rank, rank2doc
    ensures next == rank + 1 && rank2doc[..next] == old(rank2doc[..rank]) + [docid]
    ensures doc2rank[..] == old(doc2rank[..])[docid := rank]
    ensures Consistent(doc2rank[..], rank2doc[..next], n)
  {
    ConsistentStep(doc2rank[..], rank2doc[..rank], n, docid);
    hide Consistent;
    doc2rank[docid] := rank;
    rank2doc[rank] := docid;
    next := rank + 1;
  }

  lemma {:induction false} ListedBelow(n: nat, ordering: seq<string>, indexAt: map<string, nat>)
    requires forall title :: title in indexAt ==> indexAt[title] < n
    ensures forall i :: 0 <= i < |Listed(ordering, indexAt)| ==> Listed(ordering, indexAt)[i] < n
  {
    if ordering != [] {
      ListedBelow(n, ordering[..|ordering| - 1], indexAt);
    }
  }

  lemma {:induction false} ListedPrefix(ordering: seq<string>, m: nat, indexAt: map<string, nat>)
    requires m <= |ordering|
    ensures Listed(ordering[..m], indexAt) <= Listed(ordering, indexAt)
  {
    if m < |ordering| {
      var init := ordering[..|ordering| - 1];
      ListedPrefix(init, m, indexAt);
      assert init[..m] == ordering[..m];
    } else {
      assert ordering[..m] == ordering;
    }
  }

  /** More listed documents than documents: some document is listed twice. */
  lemma TooManyListed(n: nat, ordering: seq<string>, m: nat, indexAt: map<string, nat>)
    requires forall title :: title in indexAt ==> indexAt[title] < n
    requires m <= |ordering| && n < |Listed(ordering[..m], indexAt)|
    ensures !NoRepeats(Listed(ordering, indexAt))
  {
    ListedPrefix(ordering, m, indexAt);
    var listed := Listed(ordering, indexAt);
    ListedBelow(n, ordering, indexAt);
    ElementsBelow(listed, n);
    DistinctCount(listed);
  }

  /** The loop over the ordering. It fails when it would write past the end of `rank2doc`. */
  method RankListed(n: nat, ordering: seq<string>, indexAt: map<string, nat>,
                    doc2rank: array<nat>, rank2doc: array<nat>) returns (ok: bool, rank: nat)
    requires doc2rank != rank2doc && doc2rank.Length == rank2doc.Length == n
    requires forall title :: title in indexAt ==> indexAt[title] < n
    requires Consistent(doc2rank[..], [], n)
    modifies doc2rank, rank2doc
    ensures !ok ==> !NoRepeats(Listed(ordering, indexAt))
    ensures ok ==> rank == |Listed(ordering, indexAt)| <= n && rank2doc[..rank] == Listed(ordering, indexAt)
    ensures ok ==> Consistent(doc2rank[..], rank2doc[..rank], n)
  {
    rank := 0;
    assert rank2doc[..0] == [];
    for line := 0 to |ordering|
      invariant rank == |Listed(ordering[..line], indexAt)| <= n
      invariant rank2doc[..rank] == Listed(ordering[..line], indexAt)
      invariant Consistent(doc2rank[..], rank2doc[..rank], n)
    {
      assert ordering[..line + 1][..line] == ordering[..line];
      var title := ordering[line];
      if title in indexAt {
        if rank == n {
          TooManyListed(n, ordering, line + 1, indexAt);
          return false, rank;
        }
        rank := GiveRank(n, indexAt[title], rank, doc2rank, rank2doc);
      }
    }
    assert ordering[..|ordering|] == ordering;
    ok := true;
  }

  /** All documents below `docid` have ranks; those not listed got theirs in order. */
  ghost predicate RestSoFar(doc2rank: seq<nat>, ranks: seq<nat>, n: nat, listed: seq<nat>, docid: nat) {
    && Consistent(doc2rank, ranks, n) && docid <= n
    && listed <= ranks
    && (forall d :: 0 <= d < docid ==> doc2rank[d] != n)
    && (forall i :: |listed| <= i < |ranks| ==> ranks[i] < docid)
    && (forall i, j :: |listed| <= i < j < |ranks| ==> ranks[i] < ranks[j])
    && (NoRepeats(listed) ==> NoRepeats(ranks))
  }

  /** All ranks are given yet a document has none: some document holds two. */
  lemma NoRoomLeft(doc2rank: seq<nat>, ranks: seq<nat>, n: nat, docid: nat)
    requires Consistent(doc2rank, ranks, n) && |ranks| == n
    requires docid < n && doc2rank[docid] == n
    ensures !NoRepeats(ranks)
  {
    DistinctCount(ranks);
    forall x | x in Elements(ranks) ensures x in Below(n) - {docid} {
    }
    SubsetCount(Elements(ranks), Below(n) - {docid});
  }

  lemma RestStep(doc2rank: seq<nat>, ranks: seq<nat>, n: nat, listed: seq<nat>, docid: nat)
    requires RestSoFar(doc2rank, ranks, n, listed, docid) && docid < n
    ensures Consistent(doc2rank, ranks, n) && listed <= ranks
    ensures doc2rank[docid] != n ==> RestSoFar(doc2rank, ranks, n, listed, docid + 1)
    ensures doc2rank[docid] == n && |ranks| < n ==>
      RestSoFar(doc2rank[docid := |ranks|], ranks + [docid], n, listed, docid + 1)
    ensures doc2rank[docid] == n && |ranks| == n ==> !NoRepeats(listed)
  {
    if doc2rank[docid] == n {
      assert forall r :: 0 <= r < |ranks| ==> ranks[r] != docid;
      if |ranks| == n {
        NoRoomLeft(doc2rank, ranks, n, docid);
      } else {
        ConsistentStep(doc2rank, ranks, n, docid);
      }
    }
  }

  /** Every document has a rank and there are at most n ranks: the tables are inverse. */
  lemma AllRanked(doc2rank: seq<nat>, ranks: seq<nat>, n: nat)
    requires Consistent(doc2rank, ranks, n)
    requires forall d :: 0 <= d < n ==> doc2rank[d] != n
    ensures |ranks| == n && NoRepeats(ranks)
    ensures forall r :: 0 <= r < n ==> doc2rank[ranks[r]] == r
  {
    DistinctCount(ranks);
    forall d | d in Below(n) ensures d in Elements(ranks) {
      assert ranks[doc2rank[d]] == d;
    }
    SubsetCount(Below(n), Elements(ranks));
    forall r | 0 <= r < n ensures doc2rank[ranks[r]] == r {
      assert ranks[doc2rank[ranks[r]]] == ranks[r];
    }
  }

  lemma TablesInverse(doc2rank: seq<nat>, ranks: seq<nat>, n: nat)
    requires Consistent(doc2rank, ranks, n) && forall d :: 0 <= d < n ==> doc2rank[d] != n
    ensures |doc2rank| == |ranks| == n && NoRepeats(ranks)
    ensures forall r :: 0 <= r < n ==> ranks[r] < n && doc2rank[ranks[r]] == r
    ensures forall d :: 0 <= d < n ==> doc2rank[d] < n && ranks[doc2rank[d]] == d
  {
    AllRanked(doc2rank, ranks, n);
  }

  lemma RestStarts(doc2rank: seq<nat>, listed: seq<nat>, n: nat)
    requires Consistent(doc2rank, listed, n)
    ensures RestSoFar(doc2rank, listed, n, listed, 0)
  {
  }

  /** When every document was looked at, the tables are inverse and the rest is in order. */
  lemma RestEnds(doc2rank: seq<nat>, ranks: seq<nat>, n: nat, listed: seq<nat>)
    requires RestSoFar(doc2rank, ranks, n, listed, n)
    ensures Consistent(doc2rank, ranks, n) && |ranks| == n && listed <= ranks
    ensures forall d :: 0 <= d < n ==> doc2rank[d] != n
    ensures forall i, j :: |listed| <= i < j < n ==> ranks[i] < ranks[j]
  {
    AllRanked(doc2rank, ranks, n);
  }

  /** The loop over the documents the ordering leaves out. */
  method RankRest(n: nat, count: nat, doc2rank: array<nat>, rank2doc: array<nat>) returns (ok: bool)
    requires doc2rank != rank2doc && doc2rank.Length == rank2doc.Length == n
    requires count <= n && Consistent(doc2rank[..], rank2doc[..count], n)
    modifies doc2rank, rank2doc
    ensures !ok ==> !NoRepeats(old(rank2doc[..count]))
    ensures rank2doc[..count] == old(rank2doc[..count])
    ensures ok ==> Consistent(doc2rank[..], rank2doc[..], n) && forall d :: 0 <= d < n ==> doc2rank[d] != n
    ensures ok ==> forall i, j :: count <= i < j < n ==> rank2doc[i] < rank2doc[j]
  {
    hide RestSoFar, Consistent, NoRepeats;
    var rank := count;
    ghost var listed := rank2doc[..count];
    RestStarts(doc2rank[..], listed, n);
    for docid := 0 to n
      invariant count <= rank <= n
      invariant RestSoFar(doc2rank[..], rank2doc[..rank], n, listed, docid)
    {
      RestStep(doc2rank[..], rank2doc[..rank], n, listed, docid);
      if doc2rank[docid] == n {
        if rank == n {
          return false;
        }
        rank := GiveRank(n, docid, rank, doc2rank, rank2doc);
      }
    }
    RestEnds(doc2rank[..], rank2doc[..rank], n, listed);
    assert rank2doc[..n] == rank2doc[..];
    ok := true;
  }

  /** A title listed twice takes two ranks, and then the ranks run out. */
  lemma TitleListedTwice()
    ensures Listed(["a", "a"], map["a" := 0]) == [0, 0] && !NoRepeats([0, 0])
  {
    var ordering, indexAt := ["a", "a"], map["a" := 0];
    assert ordering[..1] == ["a"] && ["a"][..0] == [];
    assert Listed([], indexAt) == [] && Listed(["a"], indexAt) == [0];
    assert [0, 0][0] == [0, 0][1];
  }

  lemma PrefixNoRepeats(s: seq<nat>, m: nat)
    requires m <= |s| && NoRepeats(s)
    ensures NoRepeats(s[..m])
  {
  }

  /** No document is listed twice exactly if no two lines name the same one. */
  lemma LinesDiffer(ordering: seq<string>, indexAt: map<string, nat>)
    ensures NoRepeats(Listed(ordering, indexAt))
       <==> forall i, j :: 0 <= i < j < |ordering| && ordering[i] in indexAt && ordering[j] in indexAt ==>
              indexAt[ordering[i]] != indexAt[ordering[j]]
  {
    hide Listed;
    var listed := Listed(ordering, indexAt);
    var lines := ListedLines(ordering, indexAt);
    if NoRepeats(listed) {
      forall i, j | 0 <= i < j < |ordering| && ordering[i] in indexAt && ordering[j] in indexAt
        ensures indexAt[ordering[i]] != indexAt[ordering[j]]
      {
        var k :| 0 <= k < |lines| && lines[k] == i;
        var m :| 0 <= m < |lines| && lines[m] == j;
        assert k != m && listed[k] != listed[m];
      }
    } else {
      var k, m :| 0 <= k < m < |listed| && listed[k] == listed[m];
      assert lines[k] < lines[m] && indexAt[ordering[lines[k]]] == indexAt[ordering[lines[m]]];
    }
  }

  /** Named documents rank in the order of their lines, before all others; those by identifier. */
  lemma RanksFollowLines(n: nat, ordering: seq<string>, indexAt: map<string, nat>, doc2rank: array<nat>,
                         ranks: array<nat>)
    requires doc2rank.Length == ranks.Length == n && Listed(ordering, indexAt) <= ranks[..]
    requires forall r :: 0 <= r < n ==> ranks[r] < n && doc2rank[ranks[r]] == r
    requires forall d :: 0 <= d < n ==> doc2rank[d] < n && ranks[doc2rank[d]] == d
    requires forall i, j :: |Listed(ordering, indexAt)| <= i < j < n ==> ranks[i] < ranks[j]
    ensures forall i :: 0 <= i < |ordering| && ordering[i] in indexAt ==> indexAt[ordering[i]] < n
    ensures forall i, j :: 0 <= i < j < |ordering| && ordering[i] in indexAt && ordering[j] in indexAt ==>
      doc2rank[indexAt[ordering[i]]] < doc2rank[indexAt[ordering[j]]]
    ensures forall i, d ::
        0 <= i < |ordering| && ordering[i] in indexAt && 0 <= d < n
        && (forall j :: 0 <= j < |ordering| && ordering[j] in indexAt ==> indexAt[ordering[j]] != d) ==>
      doc2rank[indexAt[ordering[i]]] < doc2rank[d]
    ensures forall d, e ::
        0 <= d < e < n
        && (forall j :: 0 <= j < |ordering| && ordering[j] in indexAt ==> indexAt[ordering[j]] != d)
        && (forall j :: 0 <= j < |ordering| && ordering[j] in indexAt ==> indexAt[ordering[j]] != e) ==>
      doc2rank[d] < doc2rank[e]
  {
    hide Listed;
    var listed := Listed(ordering, indexAt);
    var lines := ListedLines(ordering, indexAt);
    forall i | 0 <= i < |ordering| && ordering[i] in indexAt
      ensures indexAt[ordering[i]] < n && doc2rank[indexAt[ordering[i]]] < |listed|
      ensures lines[doc2rank[indexAt[ordering[i]]]] == i
    {
      var k :| 0 <= k < |lines| && lines[k] == i;
      assert listed[k] == ranks[..][k];
    }
    forall d | 0 <= d < n
               && (forall j :: 0 <= j < |ordering| && ordering[j] in indexAt ==> indexAt[ordering[j]] != d)
      ensures |listed| <= doc2rank[d]
    {
      assert forall k :: 0 <= k < |listed| ==> ranks[..][k] == listed[k] && listed[k] != d;
    }
  }

  /** Builds both tables. The program fills tables of fixed size without a bounds check;
      `ok` is false when it would write past their end. That happens exactly when the ordering
      names a document twice; otherwise the tables are inverse permutations, listed
      documents first in listed order, the others after them by increasing identifier. */
  method RankDocuments(n: nat, ordering: seq<string>, indexAt: map<string, nat>)
    returns (ok: bool, doc2rank: array<nat>, rank2doc: array<nat>)
    requires forall title :: title in indexAt ==> indexAt[title] < n
    ensures doc2rank.Length == rank2doc.Length == n
    ensures ok <==> forall i, j :: 0 <= i < j < |ordering| && ordering[i] in indexAt && ordering[j] in indexAt ==>
      indexAt[ordering[i]] != indexAt[ordering[j]]
    ensures ok ==> forall d :: 0 <= d < n ==> doc2rank[d] < n && rank2doc[doc2rank[d]] == d
    ensures ok ==> forall r :: 0 <= r < n ==> rank2doc[r] < n && doc2rank[rank2doc[r]] == r
    ensures ok ==> forall i, j :: 0 <= i < j < |ordering| && ordering[i] in indexAt && ordering[j] in indexAt ==>
      doc2rank[indexAt[ordering[i]]] < doc2rank[indexAt[ordering[j]]]
    ensures ok ==>
      forall i, d :: 0 <= i < |ordering| && ordering[i] in indexAt && 0 <= d < n
                     && (forall j :: 0 <= j < |ordering| && ordering[j] in indexAt ==> indexAt[ordering[j]] != d) ==>
        doc2rank[indexAt[ordering[i]]] < doc2rank[d]
    ensures ok ==>
      forall d, e :: 0 <= d < e < n
                     && (forall j :: 0 <= j < |ordering| && ordering[j] in indexAt ==> indexAt[ordering[j]] != d)
                     && (forall j :: 0 <= j < |ordering| && ordering[j] in indexAt ==> indexAt[ordering[j]] != e) ==>
        doc2rank[d] < doc2rank[e]
  {
    hide Listed, Consistent, NoRepeats;
    doc2rank := new nat[n](_ => n);
    rank2doc := new nat[n](_ => 0);
    LinesDiffer(ordering, indexAt);
    var rank;
    ok, rank := RankListed(n, ordering, indexAt, doc2rank, rank2doc);
    if ok {
      ok := RankRest(n, rank, doc2rank, rank2doc);
      if ok {
        TablesInverse(doc2rank[..], rank2doc[..], n);
        assert rank2doc[..rank] <= rank2doc[..];
        PrefixNoRepeats(rank2doc[..], rank);
        RanksFollowLines(n, ordering, indexAt, doc2rank, rank2doc);
      }
    }
  }

  // ---- Evaluation through a mapping ----

  function Mapped(l: PostingList, mapping: seq<nat>): (r: PostingList)
    requires DocsBelow([l], |mapping|)
    ensures |r| == |l|
    ensures forall i :: 0 <= i < |l| ==> l[i].doc < |mapping| && r[i] == Posting(mapping[l[i].doc], l[i].payload)
  {
    assert [l][0] == l;
    seq(|l|, i requires 0 <= i < |l| => Posting(mapping[l[i].doc], l[i].payload))
  }

  lemma {:induction false} MappedScore(l: PostingList, mapping: seq<nat>, d: nat)
    requires DocsBelow([l], |mapping|) && NoRepeats(mapping) && d < |mapping|
    ensures Score(Mapped(l, mapping), mapping[d]) == Score(l, d)
  {
    if l != [] {
      assert [l][0] == l;
      assert DocsBelow([l[1..]], |mapping|);
      MappedScore(l[1..], mapping, d);
      assert Mapped(l, mapping)[1..] == Mapped(l[1..], mapping);
    }
  }

  method MapAccumulate(postings: PostingList, acc: array<int>, mapping: seq<nat>)
    requires DocsBelow([postings], |mapping|) && forall d :: 0 <= d < |mapping| ==> mapping[d] < acc.Length
    modifies acc
    ensures forall a :: 0 <= a < acc.Length ==> acc[a] == old(acc[a]) + Score(Mapped(postings, mapping), a)
  {
    assert [postings][0] == postings;
    ghost var target := Mapped(postings, mapping);
    assert target[..0] == [];
    for i := 0 to |postings|
      invariant forall a :: 0 <= a < acc.Length ==> acc[a] == old(acc[a]) + Score(target[..i], a)
    {
      forall a: nat {
        ScoreSnoc(target, i, a);
      }
      var p := postings[i];
      acc[mapping[p.doc]] := acc[mapping[p.doc]] + p.payload;
    }
    assert target[..|postings|] == target;
  }

  /** Evaluating through a mapping without repeats fills the plain scores in permuted. */
  method MappedTaat(lists: seq<PostingList>, acc: array<int>, mapping: seq<nat>)
    requires DocsBelow(lists, |mapping|) && NoRepeats(mapping)
    requires forall d :: 0 <= d < |mapping| ==> mapping[d] < acc.Length
    modifies acc
    ensures forall d :: 0 <= d < |mapping| ==> acc[mapping[d]] == old(acc[mapping[d]]) + Total(lists, d)
  {
    assert lists[..0] == [];
    for t := 0 to |lists|
      invariant forall d :: 0 <= d < |mapping| ==> acc[mapping[d]] == old(acc[mapping[d]]) + Total(lists[..t], d)
    {
      forall d: nat | d < |mapping|
        ensures Total(lists[..t + 1], d) == Total(lists[..t], d) + Score(Mapped(lists[t], mapping), mapping[d])
      {
        TotalSnoc(lists, t, d);
        MappedScore(lists[t], mapping, d);
      }
      MapAccumulate(lists[t], acc, mapping);
    }
    assert lists[..|lists|] == lists;
  }

  lemma InverseNoRepeats(mapping: seq<nat>, inverse: seq<nat>)
    requires forall d :: 0 <= d < |mapping| ==> mapping[d] < |inverse| && inverse[mapping[d]] == d
    ensures NoRepeats(mapping)
  {
    forall i, j | 0 <= i < j < |mapping| ensures mapping[i] != mapping[j] {
      assert inverse[mapping[i]] == i && inverse[mapping[j]] == j;
    }
  }

  /** Evaluating lists through the ranks of an ordering: unless it names a document twice, every
      rank ends up with the total of the document that has it. */
  method RankedTaat(n: nat, ordering: seq<string>, indexAt: map<string, nat>, lists: seq<PostingList>)
    returns (ok: bool, doc2rank: array<nat>, rank2doc: array<nat>, acc: array<int>)
    requires forall title :: title in indexAt ==> indexAt[title] < n
    requires DocsBelow(lists, n)
    ensures ok <==> forall i, j :: 0 <= i < j < |ordering| && ordering[i] in indexAt && ordering[j] in indexAt ==>
      indexAt[ordering[i]] != indexAt[ordering[j]]
    ensures doc2rank.Length == rank2doc.Length == acc.Length == n
    ensures ok ==> forall d :: 0 <= d < n ==> doc2rank[d] < n && acc[doc2rank[d]] == Total(lists, d)
    ensures ok ==> forall r :: 0 <= r < n ==> acc[r] == Total(lists, rank2doc[r])
  {
    ok, doc2rank, rank2doc := RankDocuments(n, ordering, indexAt);
    acc := new int[n](_ => 0);
    if ok {
      InverseNoRepeats(doc2rank[..], rank2doc[..]);
      MappedTaat(lists, acc, doc2rank[..]);
      forall r | 0 <= r < n ensures acc[r] == Total(lists, rank2doc[r]) {
        assert doc2rank[..][rank2doc[r]] == r;
      }
    }
  }
}
