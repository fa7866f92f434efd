/**
 The binary heaps of the query engine, kept in a growable sequence exactly as the
 C++ code keeps them in a vector. Both heaps of the program (the top-k accumulator
 and the DAAT term heap) put the entry with the smallest priority at index 0.
 */
module Heap {

  /** A heap entry: `prio` orders it, `item` is carried along. */
  datatype Node<T> = Node(prio: int, item: T)

  function Parent(j: int): int {
    (j - 1) / 2
  }

  /** Entry `j` does not come before its parent. */
  ghost predicate InOrder<T>(h: seq<Node<T>>, j: int)
    requires 1 <= j < |h|
  {
    h[Parent(j)].prio <= h[j].prio
  }

  /** The heap order restricted to parents at or after index `lo`. */
  ghost predicate HeapFrom<T>(h: seq<Node<T>>, lo: nat) {
    forall j :: 1 <= j < |h| && lo <= Parent(j) ==> InOrder(h, j)
  }

  ghost predicate IsHeap<T>(h: seq<Node<T>>) {
    forall j :: 1 <= j < |h| ==> InOrder(h, j)
  }

  /** The children of `i` (which may themselves be out of order with `i`) respect `i`'s parent. */
  ghost predicate GrandchildrenInOrder<T>(h: seq<Node<T>>, i: nat)
    requires i < |h|
  {
    1 <= i ==> forall j :: 1 <= j < |h| && Parent(j) == i ==> h[Parent(i)].prio <= h[j].prio
  }

  function Swap<T>(s: seq<T>, i: nat, j: nat): (r: seq<T>)
    requires i < |s| && j < |s|
    ensures |r| == |s|
  {
    s[i := s[j]][j := s[i]]
  }

  function SmallerChild<T>(h: seq<Node<T>>, i: nat): (c: nat)
    requires 2 * i + 1 < |h|
    ensures i < c < |h| && Parent(c) == i
    ensures forall j :: 1 <= j < |h| && Parent(j) == i ==> h[c].prio <= h[j].prio
  {
    if 2 * i + 2 < |h| && h[2 * i + 2].prio < h[2 * i + 1].prio then 2 * i + 2 else 2 * i + 1
  }

  function SiftUp<T>(h: seq<Node<T>>, i: nat): (r: seq<Node<T>>)
    requires i < |h|
    ensures |r| == |h|
    decreases i
  {
    if i == 0 || h[Parent(i)].prio <= h[i].prio then h
    else SiftUp(Swap(h, i, Parent(i)), Parent(i))
  }

  function SiftDown<T>(h: seq<Node<T>>, i: nat): (r: seq<Node<T>>)
    requires i < |h|
    ensures |r| == |h|
    decreases |h| - i
  {
    if |h| <= 2 * i + 1 then h
    else
      var c := SmallerChild(h, i);
      if h[i].prio <= h[c].prio then h else SiftDown(Swap(h, i, c), c)
  }

  /** What a pop leaves behind once the old top is dropped: the last entry takes the
      place of the top and sinks, over one entry fewer. */
  function Popped<T>(h: seq<Node<T>>): (r: seq<Node<T>>)
    requires h != []
    ensures |r| == |h| - 1
  {
    var last := |h| - 1;
    if last == 0 then [] else SiftDown([h[last]] + h[1..last], 0)
  }

  lemma SwapPermutes<T>(s: seq<T>, i: nat, j: nat)
    requires i < |s| && j < |s|
    ensures multiset(Swap(s, i, j)) == multiset(s)
  {
  }

  lemma {:induction false} SiftUpPermutes<T>(h: seq<Node<T>>, i: nat)
    requires i < |h|
    ensures multiset(SiftUp(h, i)) == multiset(h)
    decreases i
  {
    if i != 0 && h[Parent(i)].prio > h[i].prio {
      SwapPermutes(h, i, Parent(i));
      SiftUpPermutes(Swap(h, i, Parent(i)), Parent(i));
    }
  }

  lemma {:induction false} SiftDownPermutes<T>(h: seq<Node<T>>, i: nat)
    requires i < |h|
    ensures multiset(SiftDown(h, i)) == multiset(h)
    decreases |h| - i
  {
    if 2 * i + 1 < |h| {
      var c := SmallerChild(h, i);
      if h[c].prio < h[i].prio {
        SwapPermutes(h, i, c);
        SiftDownPermutes(Swap(h, i, c), c);
      }
    }
  }

  lemma PoppedPermutes<T>(h: seq<Node<T>>)
    requires h != []
    ensures multiset(Popped(h)) + multiset{h[0]} == multiset(h)
  {
    var last := |h| - 1;
    assert h == [h[0]] + h[1..];
    if last > 0 {
      assert h[1..] == h[1..last] + [h[last]];
      SiftDownPermutes([h[last]] + h[1..last], 0);
    }
  }

  lemma {:induction false} RootIsMin<T>(h: seq<Node<T>>, j: nat)
    requires IsHeap(h) && j < |h|
    ensures h[0].prio <= h[j].prio
  {
    if j != 0 {
      assert InOrder(h, j);
      RootIsMin(h, Parent(j));
    }
  }

  /** Only the link above `i` may be broken: sifting up repairs it. */
  lemma {:induction false} SiftUpRestores<T>(h: seq<Node<T>>, i: nat)
    requires i < |h| && GrandchildrenInOrder(h, i)
    requires forall j :: 1 <= j < |h| && j != i ==> InOrder(h, j)
    ensures IsHeap(SiftUp(h, i))
    decreases i
  {
    if i != 0 && h[Parent(i)].prio > h[i].prio {
      var p := Parent(i);
      var g := Swap(h, i, p);
      forall j | 1 <= j < |g| && j != p ensures InOrder(g, j) {
        assert j == i || InOrder(h, j);
      }
      if 1 <= p {
        assert InOrder(h, p);
        forall j | 1 <= j < |g| && Parent(j) == p ensures g[Parent(p)].prio <= g[j].prio {
          assert j == i || InOrder(h, j);
        }
      }
      SiftUpRestores(g, p);
    }
  }

  /** Only the links below `i` may be broken: sifting down repairs them. */
  lemma {:induction false} SiftDownRestores<T>(h: seq<Node<T>>, lo: nat, i: nat)
    requires lo <= i < |h|
    requires forall j :: 1 <= j < |h| && lo <= Parent(j) != i ==> InOrder(h, j)
    requires lo <= Parent(i) ==> GrandchildrenInOrder(h, i)
    ensures HeapFrom(SiftDown(h, i), lo)
    decreases |h| - i
  {
    if 2 * i + 1 < |h| {
      var c := SmallerChild(h, i);
      if h[c].prio < h[i].prio {
        var g := Swap(h, i, c);
        forall j | 1 <= j < |g| && lo <= Parent(j) != c ensures InOrder(g, j) {
          if Parent(j) != i {
            assert InOrder(h, j);
          }
        }
        forall j | 1 <= j < |g| && Parent(j) == c ensures g[Parent(c)].prio <= g[j].prio {
          assert InOrder(h, j);
        }
        SiftDownRestores(g, lo, c);
      } else {
        forall j | 1 <= j < |h| && lo <= Parent(j) ensures InOrder(h, j) {
        }
      }
    }
  }

  /** Dropping the top of a pushed-on heap needs the heap order only on the part
      before the push: the pushed entry takes the top's place. */
  lemma PoppedIsHeap<T>(h: seq<Node<T>>)
    requires h != [] && IsHeap(h[..|h| - 1])
    ensures IsHeap(Popped(h))
  {
    var last := |h| - 1;
    if last > 0 {
      var g := [h[last]] + h[1..last];
      forall j | 1 <= j < |g| && 0 <= Parent(j) != 0 ensures InOrder(g, j) {
        assert InOrder(h[..last], j);
      }
      SiftDownRestores(g, 0, 0);
    }
  }

  lemma PrefixIsHeap<T>(h: seq<Node<T>>, n: nat)
    requires IsHeap(h) && n <= |h|
    ensures IsHeap(h[..n])
  {
    forall j | 1 <= j < n ensures InOrder(h[..n], j) {
      assert InOrder(h, j);
    }
  }

  lemma PushIsHeap<T>(h: seq<Node<T>>, e: Node<T>)
    requires IsHeap(h)
    ensures IsHeap(SiftUp(h + [e], |h|))
  {
    var g := h + [e];
    forall j | 1 <= j < |h| ensures InOrder(g, j) {
      assert InOrder(h, j);
    }
    SiftUpRestores(g, |h|);
  }

  lemma RootBelowAll<T>(h: seq<Node<T>>)
    requires IsHeap(h) && h != []
    ensures h[0] in multiset(h)
    ensures forall y :: y in multiset(h) ==> h[0].prio <= y.prio
  {
    forall y | y in multiset(h) ensures h[0].prio <= y.prio {
      var j :| 0 <= j < |h| && h[j] == y;
      RootIsMin(h, j);
    }
  }

  lemma PushedOn<T>(top: seq<Node<T>>, e: Node<T>)
    requires IsHeap(top)
    ensures var r := SiftUp(top + [e], |top|); IsHeap(r) && multiset(r) == multiset(top) + multiset{e}
  {
    PushIsHeap(top, e);
    SiftUpPermutes(top + [e], |top|);
    assert multiset(top + [e]) == multiset(top) + multiset{e};
  }

  lemma ReplacedTop<T>(top: seq<Node<T>>, e: Node<T>)
    requires IsHeap(top) && top != []
    ensures var r := Popped(top + [e]);
      IsHeap(r) && multiset(r) == multiset(top) + multiset{e} - multiset{top[0]}
  {
    var grown := top + [e];
    assert grown[..|grown| - 1] == top;
    PoppedIsHeap(grown);
    PoppedPermutes(grown);
    var r := Popped(grown);
    assert multiset(grown) == multiset(top) + multiset{e};
    assert multiset(r) == multiset(r) + multiset{top[0]} - multiset{top[0]};
  }

  /** `std::push_heap` over the whole sequence. */
  method PushHeap<T>(h: seq<Node<T>>) returns (r: seq<Node<T>>)
    requires h != []
    ensures r == SiftUp(h, |h| - 1)
  {
    r := h;
    var i := |h| - 1;
    while i != 0 && r[Parent(i)].prio > r[i].prio
      invariant |r| == |h| && 0 <= i < |r|
      invariant SiftUp(r, i) == SiftUp(h, |h| - 1)
      decreases i
    {
      var parent := Parent(i);
      r := Swap(r, i, parent);
      i := parent;
    }
  }

  method Sink<T>(h: seq<Node<T>>, from: nat) returns (r: seq<Node<T>>)
    requires from < |h|
    ensures r == SiftDown(h, from)
  {
    r := h;
    var i := from;
    while 2 * i + 1 < |r|
      invariant |r| == |h| && 0 <= i < |r|
      invariant SiftDown(r, i) == SiftDown(h, from)
      decreases |r| - i
    {
      var c := SmallerChild(r, i);
      if r[i].prio <= r[c].prio {
        return;
      }
      r := Swap(r, i, c);
      i := c;
    }
  }

  /** `std::pop_heap`: the old top moves to the back, the rest is `Popped`. */
  method PopHeap<T>(h: seq<Node<T>>) returns (r: seq<Node<T>>)
    requires h != []
    ensures r == Popped(h) + [h[0]]
  {
    var last := |h| - 1;
    if last == 0 {
      return h;
    }
    var rest := [h[last]] + h[1..last];
    rest := Sink(rest, 0);
    r := rest + [h[0]];
  }

  /** `std::make_heap`: sift every inner position down, last one first. */
  method MakeHeap<T>(h: seq<Node<T>>) returns (r: seq<Node<T>>)
    ensures IsHeap(r)
    ensures multiset(r) == multiset(h)
  {
    r := h;
    var i := |h| / 2;
    while i != 0
      invariant |r| == |h| && 0 <= i <= |h| / 2
      invariant HeapFrom(r, i)
      invariant multiset(r) == multiset(h)
    {
      i := i - 1;
      SiftDownRestores(r, i, i);
      SiftDownPermutes(r, i);
      r := Sink(r, i);
    }
  }
}
