/**
 The sorted interleaving of posting lists (`irk::merge`), as the program builds it: the
 moving ranges are kept lined up by their front documents, exhausted ones last, and after
 each step the advanced front range is swapped back into line.
 */
module Merge {
  import opened Postings

  /** The program's order on moving ranges. It is not strict: two exhausted ranges come
      before each other, so it only ever decides where to stop swapping. */
  predicate Before(l: PostingList, r: PostingList) {
    if r == [] then true
    else if l == [] then false
    else l[0].doc < r[0].doc
  }

  /** `l` may stand ahead of `r`. */
  ghost predicate NotAfter(l: PostingList, r: PostingList) {
    r == [] || (l != [] && l[0].doc <= r[0].doc)
  }

  ghost predicate LinedUp(ranges: seq<PostingList>) {
    forall i, j :: 0 <= i < j < |ranges| ==> NotAfter(ranges[i], ranges[j])
  }

  ghost predicate SameLists(ls: seq<PostingList>, ms: seq<PostingList>) {
    && (forall l :: l in ls <==> l in ms)
    && Count(ls) == Count(ms)
    && SameTotals(ls, ms)
  }

  lemma SwappedLists(ls: seq<PostingList>, i: nat, j: nat)
    requires i < |ls| && j < |ls|
    ensures SameLists(ls[i := ls[j]][j := ls[i]], ls)
  {
    SwapTotals(ls, i, j);
    var ms := ls[i := ls[j]][j := ls[i]];
    forall l ensures l in ls <==> l in ms {
      if l in ls {
        var t :| 0 <= t < |ls| && ls[t] == l;
        assert l == ms[if t == i then j else if t == j then i else t];
      }
    }
  }

  lemma SameListsKeep(ls: seq<PostingList>, ms: seq<PostingList>, n: nat)
    requires SameLists(ls, ms)
    ensures AllSorted(ms) ==> AllSorted(ls)
    ensures DocsBelow(ms, n) ==> DocsBelow(ls, n)
    ensures DocsFrom(ms, n) ==> DocsFrom(ls, n)
    ensures Mentions(ms, n) <==> Mentions(ls, n)
  {
    forall t | 0 <= t < |ls| ensures exists u :: 0 <= u < |ms| && ms[u] == ls[t] {
      assert ls[t] in ms;
    }
  }

  lemma SameListsAgree(ls: seq<PostingList>, ms: seq<PostingList>)
    requires SameLists(ls, ms)
    ensures forall d: nat :: Total(ls, d) == Total(ms, d)
    ensures forall d: nat :: Mentions(ls, d) <==> Mentions(ms, d)
  {
    forall d: nat {
      SameListsKeep(ls, ms, d);
    }
  }

  lemma FrontMentioned(ls: seq<PostingList>)
    requires ls != [] && ls[0] != []
    ensures Mentions(ls, ls[0][0].doc)
  {
    assert ls[0] in ls;
  }

  lemma SameTransitive(a: seq<PostingList>, b: seq<PostingList>, c: seq<PostingList>)
    requires SameLists(a, b) && SameLists(b, c)
    ensures SameLists(a, c)
  {
  }

  /** Swaps the first range backwards until it stands in line. */
  method SettleFront(ranges: seq<PostingList>) returns (r: seq<PostingList>)
    requires ranges != [] && LinedUp(ranges[1..])
    ensures |r| == |ranges| && LinedUp(r) && SameLists(r, ranges)
  {
    r := ranges;
    var it := 1;
    forall i, j | 1 <= i < j < |r| ensures NotAfter(r[i], r[j]) {
      assert r[i] == ranges[1..][i - 1] && r[j] == ranges[1..][j - 1];
    }
    while it < |r|
      invariant 1 <= it <= |r| == |ranges|
      invariant SameLists(r, ranges)
      invariant forall i, j :: 0 <= i < j < |r| && i != it - 1 ==> NotAfter(r[i], r[j])
    {
      if Before(r[it - 1], r[it]) {
        forall j | it < j < |r| ensures NotAfter(r[it - 1], r[j]) {
          assert NotAfter(r[it], r[j]);
        }
        return;
      }
      hide SameTotals;
      SwappedLists(r, it - 1, it);
      SameTransitive(r[it - 1 := r[it]][it := r[it - 1]], r, ranges);
      ghost var s := r;
      r := r[it - 1 := r[it]][it := r[it - 1]];
      forall i, j | 0 <= i < j < |r| && i != it ensures NotAfter(r[i], r[j]) {
        var a := if i == it - 1 then it else i;
        var b := if j == it - 1 then it else if j == it then it - 1 else j;
        assert r[i] == s[a] && r[j] == s[b];
        if a < b { assert a != it - 1 ==> NotAfter(s[a], s[b]); }
      }
      it := it + 1;
    }
  }

  lemma SameCons(l: PostingList, a: seq<PostingList>, b: seq<PostingList>)
    requires SameLists(a, b)
    ensures SameLists([l] + a, [l] + b)
  {
    assert ([l] + a)[1..] == a && ([l] + b)[1..] == b;
    assert forall m :: m in [l] + a <==> m == l || m in a;
    assert forall m :: m in [l] + b <==> m == l || m in b;
    forall d: nat ensures Total([l] + a, d) == Total([l] + b, d) {
      assert Total(a, d) == Total(b, d);
    }
  }

  /** `std::sort` of the ranges by the program's order. */
  method LineUp(lists: seq<PostingList>) returns (r: seq<PostingList>)
    ensures |r| == |lists| && LinedUp(r) && SameLists(r, lists)
  {
    r := [];
    var i := |lists|;
    assert lists[|lists|..] == [];
    while i != 0
      invariant 0 <= i <= |lists| && |r| == |lists| - i
      invariant LinedUp(r) && SameLists(r, lists[i..])
    {
      i := i - 1;
      ghost var grown := [lists[i]] + r;
      assert grown[1..] == r && lists[i..] == [lists[i]] + lists[i + 1..];
      SameCons(lists[i], r, lists[i + 1..]);
      r := SettleFront([lists[i]] + r);
      SameTransitive(r, grown, lists[i..]);
    }
    assert lists[0..] == lists;
  }

  lemma {:induction false} CountSnoc(ls: seq<PostingList>, l: PostingList)
    ensures Count(ls + [l]) == Count(ls) + |l|
  {
    if ls != [] {
      assert (ls + [l])[1..] == ls[1..] + [l];
      CountSnoc(ls[1..], l);
    }
  }

  class UnionIterator {
    var ranges: seq<PostingList>
    var pos: nat
    const length: nat
    ghost const bound: nat

    ghost predicate Valid()
      reads this
    {
      && AllSorted(ranges) && LinedUp(ranges)
      && pos + Count(ranges) == length
      && DocsBelow(ranges, bound)
    }

    constructor (lists: seq<PostingList>, ghost n: nat)
      requires AllSorted(lists) && DocsBelow(lists, n)
      ensures Valid() && fresh(this) && SameLists(ranges, lists) && bound == n
    {
      pos := 0;
      var total := 0;
      assert lists[..0] == [];
      for t := 0 to |lists|
        invariant total == Count(lists[..t])
      {
        assert lists[..t + 1] == lists[..t] + [lists[t]];
        CountSnoc(lists[..t], lists[t]);
        total := total + |lists[t]|;
      }
      assert lists[..|lists|] == lists;
      length := total;
      bound := n;
      new;
      ranges := LineUp(lists);
      SameListsKeep(ranges, lists, n);
    }

    predicate AtEnd()
      reads this
    {
      pos == length
    }

    /** Until the end, the first range holds the next posting, and none ahead precedes it. */
    lemma FrontIsNext()
      requires Valid()
      ensures pos <= length
      ensures AtEnd() <==> forall t :: 0 <= t < |ranges| ==> ranges[t] == []
      ensures !AtEnd() ==> ranges != [] && ranges[0] != [] && DocsFrom(ranges, ranges[0][0].doc)
    {
      CountZero(ranges);
      if !AtEnd() {
        var t :| 0 <= t < |ranges| && ranges[t] != [];
        assert t == 0 || NotAfter(ranges[0], ranges[t]);
        forall t, i | 0 <= t < |ranges| && 0 <= i < |ranges[t]| ensures ranges[0][0].doc <= ranges[t][i].doc {
          assert t == 0 || NotAfter(ranges[0], ranges[t]);
        }
      }
    }

    method Increment()
      requires Valid() && !AtEnd()
      modifies `ranges, `pos
      ensures Valid() && pos == old(pos) + 1
      ensures ranges != [] && old(ranges) != [] && old(ranges)[0] != []
      ensures SameLists(ranges, Advanced(old(ranges), 0))
    {
      FrontIsNext();
      ghost var advanced := ranges[0 := ranges[0][1..]];
      CountUpdate(ranges, 0, ranges[0][1..]);
      assert advanced[1..] == ranges[1..];
      ranges := SettleFront(ranges[0 := ranges[0][1..]]);
      SameListsKeep(ranges, advanced, bound);
      pos := pos + 1;
    }
  }

  /** What one step takes out of the lists ahead. */
  lemma StepTakesFront(before: seq<PostingList>, after: seq<PostingList>, n: nat, d: nat)
    requires before != [] && before[0] != [] && SameLists(after, Advanced(before, 0))
    ensures Total(before, d) == Total(after, d) + (if before[0][0].doc == d then before[0][0].payload else 0)
    ensures Mentions(before, d) <==> Mentions(after, d) || before[0][0].doc == d
    ensures DocsFrom(before, n) ==> DocsFrom(after, n)
  {
    hide Total, Mentions, SameLists;
    SameListsAgree(after, Advanced(before, 0));
    SameListsKeep(after, Advanced(before, 0), n);
    AdvanceTotal(before, 0, d);
    AdvanceMentions(before, 0, d);
  }
}
