/**
 Laying a code tree out in bytes (`irk::coding::hutucker::compact`): nodes are numbered
 breadth first, so a child's offset is known before the child itself is written.
 */
module Compact {
  import opened AlphabeticTree

  datatype CompactNode = CompactNode(symbol: Byte, left: nat, right: nat)

  /** How many nodes a 16-bit pointer can address. */
  const MAX_NODES: nat := (0x1_0000 - SYMBOL_BOUND) / NODE_SIZE

  function Internal(t: Tree): nat {
    match t
    case Leaf(_) => 0
    case Node(_, left, right) => 1 + Internal(left) + Internal(right)
  }

  lemma {:induction false} SomeLeaf(t: Tree) returns (s: Byte)
    ensures s in Leaves(t)
  {
    match t
    case Leaf(symbol) => s := symbol;
    case Node(_, left, _) => s := SomeLeaf(left);
  }

  lemma {:induction false} InternalBound(t: Tree, low: int, high: int)
    requires Ordered(t) && forall s :: s in Leaves(t) ==> low <= Signed(s) <= high
    ensures Internal(t) <= high - low
  {
    match t
    case Leaf(symbol) =>
      assert symbol in Leaves(t);
    case Node(split, left, right) =>
      var s := SomeLeaf(left);
      var u := SomeLeaf(right);
      InternalBound(left, low, Signed(split));
      InternalBound(right, Signed(split) + 1, high);
  }

  /** An ordered tree of `char` symbols has at most 255 inner nodes, so it always fits. */
  lemma OrderedIsSmall(t: Tree)
    requires Ordered(t)
    ensures Internal(t) <= 255 < MAX_NODES
  {
    InternalBound(t, -128, 127);
  }

  /** Inner nodes below the queued nodes that are not queued yet. */
  function Pending(queue: seq<Tree>): int {
    if queue == [] then 0 else Internal(queue[0]) - 1 + Pending(queue[1..])
  }

  lemma {:induction false} PendingConcat(a: seq<Tree>, b: seq<Tree>)
    ensures Pending(a + b) == Pending(a) + Pending(b)
  {
    if a == [] {
      assert a + b == b;
    } else {
      assert (a + b)[1..] == a[1..] + b;
      PendingConcat(a[1..], b);
    }
  }

  /** The children that get a node of their own. */
  ghost function Kids(t: Tree): seq<Tree>
    requires t.Node?
  {
    (if t.left.Leaf? then [] else [t.left]) + (if t.right.Leaf? then [] else [t.right])
  }

  lemma KidsPending(t: Tree)
    requires t.Node?
    ensures Internal(t) == 1 + Pending(Kids(t)) + |Kids(t)|
    ensures forall i :: 0 <= i < |Kids(t)| ==> Kids(t)[i].Node?
  {
    var l := if t.left.Leaf? then [] else [t.left];
    PendingConcat(l, Kids(t)[|l|..]);
    assert Kids(t) == l + Kids(t)[|l|..];
  }

  lemma {:induction false} PendingNatural(queue: seq<Tree>)
    requires forall i :: 0 <= i < |queue| ==> queue[i].Node?
    ensures 0 <= Pending(queue)
  {
    if queue != [] {
      PendingNatural(queue[1..]);
    }
  }

  /** A pointer to a subtree: its symbol, or the node at place `i`. */
  ghost predicate PointsTo(ptr: nat, t: Tree, order: seq<Tree>, i: nat) {
    match t
    case Leaf(symbol) => ptr == symbol
    case Node(_, _, _) => i < |order| && order[i] == t && ptr == SYMBOL_BOUND + i * NODE_SIZE
  }

  /** The place behind the node for a child, if the child gets one. */
  function Behind(child: Tree, first: nat): nat {
    if child.Leaf? then first else first + 1
  }

  /** A node for `t` whose inner children take the places from `first` up to `next`. */
  ghost predicate Stands(node: CompactNode, t: Tree, order: seq<Tree>, first: nat, next: nat) {
    && t.Node? && node.symbol == t.split
    && node.left < 0x1_0000 && node.right < 0x1_0000
    && PointsTo(node.left, t.left, order, first) && PointsTo(node.right, t.right, order, Behind(t.left, first))
    && next == Behind(t.right, Behind(t.left, first))
  }

  function NodeBytes(node: CompactNode): (r: seq<Byte>)
    requires node.left < 0x1_0000 && node.right < 0x1_0000
    ensures |r| == NODE_SIZE
  {
    [node.symbol, node.left % 256, node.left / 256, node.right % 256, node.right / 256]
  }

  ghost predicate Holds(mem: seq<Byte>, nodes: seq<CompactNode>) {
    && |mem| == |nodes| * NODE_SIZE
    && forall j :: 0 <= j < |nodes| ==>
         && nodes[j].left < 0x1_0000 && nodes[j].right < 0x1_0000
         && mem[j * NODE_SIZE..j * NODE_SIZE + NODE_SIZE] == NodeBytes(nodes[j])
  }

  lemma StandsGrows(node: CompactNode, t: Tree, order: seq<Tree>, more: seq<Tree>, first: nat, next: nat)
    requires Stands(node, t, order, first, next)
    ensures Stands(node, t, order + more, first, next)
  {
  }

  /** The pointer for a child, which is queued unless it is a leaf. The pointer type has
      16 bits. */
  method CalcPtr(child: Tree, written: nat, queue: seq<Tree>, ghost order: seq<Tree>)
    returns (ptr: nat, longer: seq<Tree>, ghost grown: seq<Tree>)
    requires |order| == written + 1 + |queue| && order[written + 1..] == queue
    requires |order| < MAX_NODES || child.Leaf?
    ensures ptr < 0x1_0000 && PointsTo(ptr, child, grown, |order|)
    ensures grown == (if child.Leaf? then order else order + [child])
    ensures longer == (if child.Leaf? then queue else queue + [child])
  {
    if child.Leaf? {
      return child.symbol, queue, order;
    }
    ptr := (SYMBOL_BOUND + (written + |queue| + 1) * NODE_SIZE) % 0x1_0000;
    longer := queue + [child];
    grown := order + [child];
    assert grown[|order|] == child;
  }

  /** What the left child, which may get a place, leaves to be done for the right one. */
  lemma LeftDone(n: Tree, written: nat, queue: seq<Tree>, order: seq<Tree>)
    requires n.Node? && |order| == written + 1 + |queue| && order[written + 1..] == queue
    requires |order| + |Kids(n)| <= MAX_NODES
    ensures |order| < MAX_NODES || n.left.Leaf?
    ensures var longer, mid := if n.left.Leaf? then queue else queue + [n.left],
                               if n.left.Leaf? then order else order + [n.left];
      && |mid| == written + 1 + |longer| && mid[written + 1..] == longer
      && (|mid| < MAX_NODES || n.right.Leaf?)
  {
  }

  lemma BothDone(n: Tree, queue: seq<Tree>, mid: seq<Tree>, longer: seq<Tree>)
    requires n.Node? && mid == if n.left.Leaf? then queue else queue + [n.left]
    requires longer == if n.right.Leaf? then mid else mid + [n.right]
    ensures longer == queue + Kids(n) && mid == longer[..|mid|] && |mid| == Behind(n.left, |queue|)
  {
  }

  lemma StandsNew(n: Tree, left: nat, right: nat, order: seq<Tree>, mid: seq<Tree>, grown: seq<Tree>)
    requires n.Node? && left < 0x1_0000 && right < 0x1_0000
    requires |mid| == Behind(n.left, |order|) && mid <= grown == order + Kids(n)
    requires PointsTo(left, n.left, mid, |order|) && PointsTo(right, n.right, grown, |mid|)
    ensures Stands(CompactNode(n.split, left, right), n, grown, |order|, |grown|)
  {
  }

  /** Both pointers of a node taken off the queue. */
  method Expand(n: Tree, written: nat, queue: seq<Tree>, ghost order: seq<Tree>)
    returns (node: CompactNode, longer: seq<Tree>)
    requires n.Node? && |order| == written + 1 + |queue| && order[written + 1..] == queue
    requires |order| + |Kids(n)| <= MAX_NODES
    ensures longer == queue + Kids(n) && Stands(node, n, order + Kids(n), |order|, |order| + |Kids(n)|)
  {
    hide Stands, PointsTo, Kids, Behind;
    LeftDone(n, written, queue, order);
    var leftPtr, middle, rightPtr;
    ghost var mid, grown;
    leftPtr, middle, mid := CalcPtr(n.left, written, queue, order);
    rightPtr, longer, grown := CalcPtr(n.right, written, middle, mid);
    BothDone(n, queue, middle, longer);
    BothDone(n, order, mid, grown);
    StandsNew(n, leftPtr, rightPtr, order, mid, grown);
    node := CompactNode(n.split, leftPtr, rightPtr);
  }

  /** Node `j` stands for tree `j`; its inner children take the places from `first[j]` on. */
  ghost predicate Placed(nodes: seq<CompactNode>, order: seq<Tree>, first: seq<nat>) {
    && |nodes| <= |order| && |first| == |nodes| + 1
    && forall j :: 0 <= j < |nodes| ==> Stands(nodes[j], order[j], order, first[j], first[j + 1])
  }

  lemma PlacedSnoc(nodes: seq<CompactNode>, order: seq<Tree>, first: seq<nat>, node: CompactNode, more: seq<Tree>)
    requires |nodes| < |order| && Placed(nodes, order, first) && first[|nodes|] == |order|
    requires Stands(node, order[|nodes|], order + more, |order|, |order| + |more|)
    ensures Placed(nodes + [node], order + more, first + [|order| + |more|])
  {
    hide Stands;
    forall j | 0 <= j < |nodes| {
      StandsGrows(nodes[j], order[j], order, more, first[j], first[j + 1]);
    }
  }

  lemma NothingPlaced(root: Tree)
    ensures Placed([], [root], [1])
  {
  }

  /** Trading the first tree of the queue for its inner children. */
  lemma PendingStep(queue: seq<Tree>)
    requires queue != [] && forall i :: 0 <= i < |queue| ==> queue[i].Node?
    ensures var longer := queue[1..] + Kids(queue[0]);
      && Pending(longer) == Pending(queue) - |Kids(queue[0])| && 0 <= Pending(longer)
      && forall i :: 0 <= i < |longer| ==> longer[i].Node?
  {
    hide Internal, Kids;
    KidsPending(queue[0]);
    PendingConcat(queue[1..], Kids(queue[0]));
    PendingNatural(queue[1..] + Kids(queue[0]));
  }

  lemma PendingRoot(root: Tree)
    ensures Pending([root]) == Internal(root) - 1 && Pending([]) == 0
  {
    hide Internal;
    assert [root][1..] == [];
  }

  lemma QueueNext(order: seq<Tree>, k: nat, queue: seq<Tree>, more: seq<Tree>)
    requires k <= |order| && order[k..] == queue && queue != []
    ensures order[k] == queue[0] && order[k + 1..] == queue[1..] && (order + more)[k + 1..] == queue[1..] + more
  {
  }

  /** The nodes in breadth-first order, each pointing to its children's places. */
  method Number(root: Tree) returns (nodes: seq<CompactNode>, ghost order: seq<Tree>, ghost first: seq<nat>)
    requires root.Node? && Internal(root) <= MAX_NODES
    ensures |nodes| == Internal(root)
    ensures |order| == |nodes| && 0 < |order| && order[0] == root
    ensures |first| == |nodes| + 1 && first[0] == 1 && Placed(nodes, order, first)
  {
    hide Stands, Internal, Kids, Placed, Pending;
    NothingPlaced(root);
    PendingRoot(root);
    nodes := [];
    var queue := [root];
    order := [root];
    first := [1];
    while queue != []
      invariant |order| == |nodes| + |queue| && order[|nodes|..] == queue && [root] <= order
      invariant |first| == |nodes| + 1 && first[0] == 1 && first[|nodes|] == |order|
      invariant forall i :: 0 <= i < |queue| ==> queue[i].Node?
      invariant |order| + Pending(queue) == Internal(root)
      invariant Placed(nodes, order, first)
      decreases Internal(root) - |nodes|
    {
      var n, before := queue[0], queue[1..];
      ghost var more := Kids(n);
      PendingStep(queue);
      QueueNext(order, |nodes|, queue, more);
      var node;
      node, queue := Expand(n, |nodes|, before, order);
      PlacedSnoc(nodes, order, first, node, more);
      nodes := nodes + [node];
      order := order + more;
      first := first + [|order|];
    }
  }

  lemma NodeAt(mem: seq<Byte>, nodes: seq<CompactNode>, i: nat)
    requires Holds(mem, nodes) && i < |nodes|
    ensures i * NODE_SIZE + NODE_SIZE <= |mem| && mem[i * NODE_SIZE] == nodes[i].symbol
    ensures Pointer(mem, i * NODE_SIZE + 1) == nodes[i].left && Pointer(mem, i * NODE_SIZE + 3) == nodes[i].right
  {
    var at := i * NODE_SIZE;
    var bytes := mem[at..at + NODE_SIZE];
    assert bytes == NodeBytes(nodes[i]);
    assert bytes[0] == mem[at] && bytes[1] == mem[at + 1] && bytes[2] == mem[at + 2]
        && bytes[3] == mem[at + 3] && bytes[4] == mem[at + 4];
  }

  lemma {:induction false} HoldsRepresents(mem: seq<Byte>, nodes: seq<CompactNode>, order: seq<Tree>, first: seq<nat>,
                                           ptr: nat, t: Tree, i: nat)
    requires Holds(mem, nodes) && |nodes| == |order| && Placed(nodes, order, first)
    requires PointsTo(ptr, t, order, i)
    ensures Represents(mem, ptr, t)
    decreases t
  {
    hide Holds;
    if t.Node? {
      NodeAt(mem, nodes, i);
      assert Stands(nodes[i], order[i], order, first[i], first[i + 1]);
      HoldsRepresents(mem, nodes, order, first, nodes[i].left, t.left, first[i]);
      HoldsRepresents(mem, nodes, order, first, nodes[i].right, t.right, Behind(t.left, first[i]));
    }
  }

  lemma HoldsSnoc(mem: seq<Byte>, nodes: seq<CompactNode>, node: CompactNode)
    requires Holds(mem, nodes) && node.left < 0x1_0000 && node.right < 0x1_0000
    ensures Holds(mem + NodeBytes(node), nodes + [node])
  {
    var longer := mem + NodeBytes(node);
    forall j | 0 <= j < |nodes|
      ensures longer[j * NODE_SIZE..j * NODE_SIZE + NODE_SIZE] == NodeBytes(nodes[j])
    {
      assert longer[j * NODE_SIZE..j * NODE_SIZE + NODE_SIZE] == mem[j * NODE_SIZE..j * NODE_SIZE + NODE_SIZE];
    }
    assert longer[|nodes| * NODE_SIZE..] == NodeBytes(node);
  }

  lemma PointersFit(node: CompactNode, t: Tree, order: seq<Tree>, first: nat, next: nat)
    requires Stands(node, t, order, first, next)
    ensures node.left < 0x1_0000 && node.right < 0x1_0000
  {
  }

  lemma NothingHeld()
    ensures Holds([], [])
  {
  }

  lemma HoldsSize(mem: seq<Byte>, nodes: seq<CompactNode>)
    requires Holds(mem, nodes)
    ensures |mem| == |nodes| * NODE_SIZE
  {
  }

  /** A two-byte pointer to a child that is a leaf or lies at place `i`. */
  lemma PointerIs(low: Byte, high: Byte, ptr: nat, child: Tree, order: seq<Tree>, i: nat)
    requires PointsTo(ptr, child, order, i) && ptr < 0x1_0000 && low == ptr % 256 && high == ptr / 256
    ensures low as int + 256 * (high as int) == if child.Leaf? then child.symbol else 256 + 5 * i
    ensures child.Node? ==> i < |order| && order[i] == child
  {
  }

  lemma BytesOfNode(mem: seq<Byte>, nodes: seq<CompactNode>, order: seq<Tree>, j: nat, first: nat, next: nat)
    requires Holds(mem, nodes) && |nodes| == |order| && j < |nodes| && Stands(nodes[j], order[j], order, first, next)
    ensures 5 * j + 5 <= |mem| && order[j].Node? && mem[5 * j] == order[j].split
    ensures mem[5 * j + 1] as int + 256 * (mem[5 * j + 2] as int)
         == if order[j].left.Leaf? then order[j].left.symbol else 256 + 5 * first
    ensures mem[5 * j + 3] as int + 256 * (mem[5 * j + 4] as int)
         == if order[j].right.Leaf? then order[j].right.symbol else 256 + 5 * (next as int - 1)
    ensures order[j].left.Node? ==> first < |order| && order[first] == order[j].left
    ensures order[j].right.Node? ==> 0 < next <= |order| && order[next - 1] == order[j].right
    ensures next == first + (if order[j].left.Leaf? then 0 else 1) + (if order[j].right.Leaf? then 0 else 1)
  {
    var bytes := mem[j * NODE_SIZE..j * NODE_SIZE + NODE_SIZE];
    assert bytes == NodeBytes(nodes[j]);
    assert bytes[0] == mem[5 * j] && bytes[1] == mem[5 * j + 1] && bytes[2] == mem[5 * j + 2]
        && bytes[3] == mem[5 * j + 3] && bytes[4] == mem[5 * j + 4];
    PointerIs(bytes[1], bytes[2], nodes[j].left, order[j].left, order, first);
    PointerIs(bytes[3], bytes[4], nodes[j].right, order[j].right, order, Behind(order[j].left, first));
  }

  /** The bytes represent the tree: reading them from the root finds it again. Every inner
      node takes five bytes, a split and two little-endian pointers; the nodes lie in the
      order in which their parents do, and those of node `j` from place `first[j]` on. */
  method CompactTree(root: Tree) returns (mem: seq<Byte>, ghost order: seq<Tree>, ghost first: seq<nat>)
    requires root.Node? && Internal(root) <= MAX_NODES
    ensures Represents(mem, SYMBOL_BOUND, root) && |mem| == Internal(root) * NODE_SIZE
    ensures |mem| == 5 * |order| && |first| == |order| + 1 && 0 < |order| && order[0] == root && first[0] == 1
    ensures forall j :: 0 <= j < |order| ==>
      && order[j].Node? && mem[5 * j] == order[j].split
      && mem[5 * j + 1] as int + 256 * (mem[5 * j + 2] as int)
         == (if order[j].left.Leaf? then order[j].left.symbol else 256 + 5 * first[j])
      && mem[5 * j + 3] as int + 256 * (mem[5 * j + 4] as int)
         == (if order[j].right.Leaf? then order[j].right.symbol else 256 + 5 * (first[j + 1] as int - 1))
    ensures forall j :: 0 <= j < |order| ==>
      && (order[j].left.Node? ==> first[j] < |order| && order[first[j]] == order[j].left)
      && (order[j].right.Node? ==> 0 < first[j + 1] <= |order| && order[first[j + 1] - 1] == order[j].right)
      && first[j + 1] == first[j] + (if order[j].left.Leaf? then 0 else 1) + (if order[j].right.Leaf? then 0 else 1)
  {
    hide Holds, Stands, Represents, Internal, NodeBytes;
    var nodes;
    nodes, order, first := Number(root);
    mem := [];
    NothingHeld();
    assert nodes[..0] == [];
    for j := 0 to |nodes|
      invariant Holds(mem, nodes[..j])
    {
      PointersFit(nodes[j], order[j], order, first[j], first[j + 1]);
      HoldsSnoc(mem, nodes[..j], nodes[j]);
      assert nodes[..j + 1] == nodes[..j] + [nodes[j]];
      mem := mem + NodeBytes(nodes[j]);
    }
    assert nodes[..|nodes|] == nodes;
    HoldsRepresents(mem, nodes, order, first, SYMBOL_BOUND, root, 0);
    HoldsSize(mem, nodes);
    forall j | 0 <= j < |order| {
      BytesOfNode(mem, nodes, order, j, first[j], first[j + 1]);
    }
  }
}
