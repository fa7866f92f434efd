/**
 The last phase of the Hu-Tucker construction (`irk::coding::hutucker`): leaves tagged with
 their levels, and the alphabetic tree rebuilt from the levels with a stack.
 */
module HuTucker {
  import opened AlphabeticTree
  import opened Options
  import Compact

  /** A symbol and the level it is to have in the tree. */
  datatype LevelLeaf = LevelLeaf(level: nat, symbol: Byte)

  datatype LevelNode = LevelNode(level: nat, node: Tree)

  /** The leaves of a tree from left to right, with their levels. */
  function LeafLevels(t: Tree, level: nat): (r: seq<LevelLeaf>)
    ensures r != []
  {
    match t
    case Leaf(symbol) => [LevelLeaf(level, symbol)]
    case Node(_, left, right) => LeafLevels(left, level + 1) + LeafLevels(right, level + 1)
  }

  function RightMost(t: Tree): Byte {
    match t
    case Leaf(symbol) => symbol
    case Node(_, _, right) => RightMost(right)
  }

  /** Every inner node carries the greatest symbol to its left. */
  predicate Canonical(t: Tree) {
    t.Node? ==> Canonical(t.left) && Canonical(t.right) && t.split == RightMost(t.left)
  }

  function Joined(left: Tree, right: Tree): Tree {
    Node(RightMost(left), left, right)
  }

  // ---- Which levels belong to a tree ----

  /** Either a tree and the leaves behind it, or the leaves from the first that does not fit. */
  datatype Parsed = Misaligned(stuck: seq<LevelLeaf>) | Read(tree: Tree, rest: seq<LevelLeaf>)

  /** The tree at a level that the leaves begin with: a leaf of that level, or two trees one
      level further down. */
  function Parse(level: nat, leaves: seq<LevelLeaf>): (r: Parsed)
    ensures r.Read? ==> |r.rest| < |leaves|
    ensures r.Misaligned? ==> |r.stuck| <= |leaves|
    ensures r.Misaligned? && leaves != [] && level <= leaves[0].level ==> |r.stuck| < |leaves|
    decreases |leaves|, if leaves == [] then 0 else leaves[0].level - level
  {
    if leaves == [] || leaves[0].level < level then Misaligned(leaves)
    else if leaves[0].level == level then Read(Leaf(leaves[0].symbol), leaves[1..])
    else match Parse(level + 1, leaves)
         case Misaligned(stuck) => Misaligned(stuck)
         case Read(left, rest) =>
           match Parse(level + 1, rest)
           case Misaligned(stuck) => Misaligned(stuck)
           case Read(right, rest') => Read(Joined(left, right), rest')
  }

  /** What becomes of any leaves: the first tree that some run of leaves makes, when reading
      starts over at every leaf that does not fit. */
  function Outcome(leaves: seq<LevelLeaf>): Option<Tree>
    decreases |leaves|
  {
    match Parse(0, leaves)
    case Read(t, _) => Some(t)
    case Misaligned(stuck) => if stuck == [] then None else Outcome(stuck)
  }

  lemma {:induction false} FirstLevel(t: Tree, level: nat)
    ensures level <= LeafLevels(t, level)[0].level
    ensures t.Node? ==> level < LeafLevels(t, level)[0].level
  {
    if t.Node? {
      FirstLevel(t.left, level + 1);
    }
  }

  /** The levels of a tree are parsed to the tree. */
  lemma {:induction false} ParseInverts(t: Tree, level: nat, rest: seq<LevelLeaf>)
    requires Canonical(t)
    ensures Parse(level, LeafLevels(t, level) + rest) == Read(t, rest)
  {
    if t.Node? {
      FirstLevel(t, level);
      var right := LeafLevels(t.right, level + 1);
      assert LeafLevels(t, level) + rest == LeafLevels(t.left, level + 1) + (right + rest);
      ParseInverts(t.left, level + 1, right + rest);
      ParseInverts(t.right, level + 1, rest);
    } else {
      assert (LeafLevels(t, level) + rest)[1..] == rest;
    }
  }

  lemma LeafAlone(leaf: LevelLeaf)
    ensures LeafLevels(Leaf(leaf.symbol), leaf.level) == [leaf] && RightMost(Leaf(leaf.symbol)) == leaf.symbol
    ensures Canonical(Leaf(leaf.symbol))
  {
  }

  lemma JoinedLevels(left: Tree, right: Tree, level: nat, rest: seq<LevelLeaf>)
    ensures LeafLevels(Joined(left, right), level) + rest
         == LeafLevels(left, level + 1) + (LeafLevels(right, level + 1) + rest)
    ensures Canonical(left) && Canonical(right) ==> Canonical(Joined(left, right))
  {
  }

  /** What is parsed has these levels. */
  lemma {:induction false} ParseIsSound(level: nat, leaves: seq<LevelLeaf>)
    requires Parse(level, leaves).Read?
    ensures var r := Parse(level, leaves); Canonical(r.tree) && leaves == LeafLevels(r.tree, level) + r.rest
    decreases |leaves|, if leaves == [] then 0 else leaves[0].level - level
  {
    hide LeafLevels, Canonical, RightMost;
    if leaves[0].level == level {
      LeafAlone(leaves[0]);
    } else {
      var left := Parse(level + 1, leaves);
      var right := Parse(level + 1, left.rest);
      assert Parse(level, leaves) == Read(Joined(left.tree, right.tree), right.rest);
      ParseIsSound(level + 1, leaves);
      ParseIsSound(level + 1, left.rest);
      JoinedLevels(left.tree, right.tree, level, right.rest);
    }
  }

  /** The leaves are those of an alphabetic tree, to the last one. */
  ghost predicate Aligned(leaves: seq<LevelLeaf>) {
    Parse(0, leaves).Read? && Parse(0, leaves).rest == []
  }

  /** Reading to the end decides whether the leaves are those of a tree, and finds it. */
  lemma AlignedExactly(leaves: seq<LevelLeaf>)
    ensures Aligned(leaves) <==> exists t :: Canonical(t) && LeafLevels(t, 0) == leaves
    ensures forall t :: Canonical(t) && LeafLevels(t, 0) == leaves ==> Parse(0, leaves) == Read(t, [])
  {
    hide Parse, LeafLevels, Canonical;
    forall t | Canonical(t) && LeafLevels(t, 0) == leaves ensures Parse(0, leaves) == Read(t, []) {
      ParseInverts(t, 0, []);
      assert leaves + [] == leaves;
    }
    if Aligned(leaves) {
      ParseIsSound(0, leaves);
      var t := Parse(0, leaves).tree;
      assert LeafLevels(t, 0) + [] == LeafLevels(t, 0);
      assert Canonical(t) && LeafLevels(t, 0) == leaves;
    }
  }

  /** Completes the tree at `level` whose leftmost part `x`, at level `at`, is already read. */
  function ParseFrom(level: nat, at: nat, x: Tree, rest: seq<LevelLeaf>): (r: Parsed)
    requires level <= at
    ensures r.Misaligned? ==> |r.stuck| <= |rest|
    ensures r.Read? ==> |r.rest| <= |rest|
    decreases at
  {
    if at == level then Read(x, rest)
    else match Parse(at, rest)
         case Misaligned(stuck) => Misaligned(stuck)
         case Read(right, rest') => ParseFrom(level, at - 1, Joined(x, right), rest')
  }

  lemma {:induction false} ParseFromOuter(level: nat, at: nat, x: Tree, rest: seq<LevelLeaf>)
    requires level < at
    ensures ParseFrom(level, at, x, rest) == match ParseFrom(level + 1, at, x, rest)
      case Misaligned(stuck) => Misaligned(stuck)
      case Read(left, rest1) =>
        match Parse(level + 1, rest1)
        case Misaligned(stuck) => Misaligned(stuck)
        case Read(right, rest2) => Read(Joined(left, right), rest2)
    decreases at
  {
    if level + 1 < at && Parse(at, rest).Read? {
      ParseFromOuter(level, at - 1, Joined(x, Parse(at, rest).tree), Parse(at, rest).rest);
    }
  }

  lemma {:induction false} ParseIsParseFrom(level: nat, leaf: LevelLeaf, rest: seq<LevelLeaf>)
    requires level <= leaf.level
    ensures Parse(level, [leaf] + rest) == ParseFrom(level, leaf.level, Leaf(leaf.symbol), rest)
    decreases leaf.level - level
  {
    assert ([leaf] + rest)[1..] == rest;
    if level < leaf.level {
      ParseIsParseFrom(level + 1, leaf, rest);
      ParseFromOuter(level, leaf.level, Leaf(leaf.symbol), rest);
    }
  }

  // ---- What the stack stands for ----

  /** The tree that results when `t` is complete at `level` and the left siblings of its
      ancestors wait on the stack. A leaf that does not fit buries the whole stack. */
  function Climb(below: seq<LevelNode>, level: nat, t: Tree, rest: seq<LevelLeaf>): Option<Tree>
    decreases level
  {
    if level == 0 then Some(t)
    else if below != [] && below[|below| - 1].level == level then
      Climb(below[..|below| - 1], level - 1, Joined(below[|below| - 1].node, t), rest)
    else match Parse(level, rest)
         case Misaligned(stuck) => Outcome(stuck)
         case Read(right, rest') => Climb(below, level - 1, Joined(t, right), rest')
  }

  /** With an empty stack the outcome is the whole tree. */
  lemma {:induction false} ClimbAlone(level: nat, t: Tree, rest: seq<LevelLeaf>)
    ensures Climb([], level, t, rest)
         == match ParseFrom(0, level, t, rest)
            case Misaligned(stuck) => Outcome(stuck)
            case Read(whole, _) => Some(whole)
    decreases level
  {
    if 0 < level && Parse(level, rest).Read? {
      ClimbAlone(level - 1, Joined(t, Parse(level, rest).tree), Parse(level, rest).rest);
    }
  }

  /** Over a waiting left sibling the right one is completed first. */
  lemma {:induction false} ClimbOver(below: seq<LevelNode>, left: LevelNode, level: nat, t: Tree, rest: seq<LevelLeaf>)
    requires 0 < left.level <= level
    ensures Climb(below + [left], level, t, rest) == match ParseFrom(left.level, level, t, rest)
      case Misaligned(stuck) => Outcome(stuck)
      case Read(right, rest') => Climb(below, left.level - 1, Joined(left.node, right), rest')
    decreases level
  {
    assert (below + [left])[..|below|] == below;
    if left.level < level && Parse(level, rest).Read? {
      ClimbOver(below, left, level - 1, Joined(t, Parse(level, rest).tree), Parse(level, rest).rest);
    }
  }

  /** A stack under a tree of a smaller level is never reached again. */
  lemma {:induction false} ClimbBuried(below: seq<LevelNode>, level: nat, t: Tree, rest: seq<LevelLeaf>)
    requires below != [] && level < below[|below| - 1].level
    ensures Climb(below, level, t, rest) == Climb([], level, t, rest)
    decreases level
  {
    if 0 < level && Parse(level, rest).Read? {
      ClimbBuried(below, level - 1, Joined(t, Parse(level, rest).tree), Parse(level, rest).rest);
    }
  }

  lemma NoneLeft()
    ensures Outcome([]) == None
  {
  }

  /** A first leaf on an empty stack. */
  lemma StartOver(leaf: LevelLeaf, rest: seq<LevelLeaf>)
    ensures Climb([], leaf.level, Leaf(leaf.symbol), rest) == Outcome([leaf] + rest)
  {
    ParseIsParseFrom(0, leaf, rest);
    ClimbAlone(leaf.level, Leaf(leaf.symbol), rest);
    NoneLeft();
  }

  /** Taking the next leaf onto the stack does not change the outcome. */
  lemma Shift(below: seq<LevelNode>, top: LevelNode, leaf: LevelLeaf, rest: seq<LevelLeaf>)
    requires 0 < top.level && (below != [] ==> below[|below| - 1].level != top.level)
    ensures Climb(below + [top], leaf.level, Leaf(leaf.symbol), rest)
         == Climb(below, top.level, top.node, [leaf] + rest)
  {
    if top.level <= leaf.level {
      ParseIsParseFrom(top.level, leaf, rest);
      ClimbOver(below, top, leaf.level, Leaf(leaf.symbol), rest);
    } else {
      ClimbBuried(below + [top], leaf.level, Leaf(leaf.symbol), rest);
      StartOver(leaf, rest);
    }
  }

  /** All leaves on the stack, from the bottom up. */
  function Frontier(stack: seq<LevelNode>): seq<LevelLeaf> {
    if stack == [] then []
    else
      var top := stack[|stack| - 1];
      Frontier(stack[..|stack| - 1]) + LeafLevels(top.node, top.level)
  }

  lemma FrontierSnoc(below: seq<LevelNode>, top: LevelNode)
    ensures Frontier(below + [top]) == Frontier(below) + LeafLevels(top.node, top.level)
  {
    assert (below + [top])[..|below|] == below;
  }

  lemma FrontierJoin(below: seq<LevelNode>, left: LevelNode, right: LevelNode)
    requires left.level == right.level && 0 < left.level
    ensures Frontier(below + [left] + [right])
         == Frontier(below + [LevelNode(left.level - 1, Joined(left.node, right.node))])
  {
    hide Frontier;
    FrontierSnoc(below + [left], right);
    FrontierSnoc(below, left);
    FrontierSnoc(below, LevelNode(left.level - 1, Joined(left.node, right.node)));
  }

  /** The leaves of the tree, with their levels, stand side by side in the list. */
  ghost predicate Within(part: seq<LevelLeaf>, all: seq<LevelLeaf>) {
    exists before, after :: all == before + part + after
  }

  ghost predicate StackFits(stack: seq<LevelNode>, symbols: seq<Byte>) {
    && |symbols| == |stack|
    && forall i :: 0 <= i < |stack| ==>
         0 < stack[i].level && Canonical(stack[i].node) && symbols[i] == RightMost(stack[i].node)
  }

  /** The outcome the stack and the remaining leaves lead to. */
  ghost function Leading(stack: seq<LevelNode>, rest: seq<LevelLeaf>): Option<Tree> {
    if stack == [] then Outcome(rest)
    else
      var m := |stack| - 1;
      Climb(stack[..m], stack[m].level, stack[m].node, rest)
  }

  lemma NextShift(stack: seq<LevelNode>, rest: seq<LevelLeaf>)
    requires stack != [] ==> 0 < stack[|stack| - 1].level
    requires 1 < |stack| ==> stack[|stack| - 1].level != stack[|stack| - 2].level
    ensures rest == [] ==> Leading(stack, rest) == None
    ensures rest != [] ==>
      Leading(stack, rest) == Leading(stack + [LevelNode(rest[0].level, Leaf(rest[0].symbol))], rest[1..])
  {
    NoneLeft();
    if rest != [] {
      var longer := stack + [LevelNode(rest[0].level, Leaf(rest[0].symbol))];
      assert longer[..|stack|] == stack && rest == [rest[0]] + rest[1..];
      if stack == [] {
        StartOver(rest[0], rest[1..]);
      } else {
        var m := |stack| - 1;
        Shift(stack[..m], stack[m], rest[0], rest[1..]);
        assert stack[..m] + [stack[m]] == stack;
      }
    }
  }

  lemma NextJoin(stack: seq<LevelNode>, rest: seq<LevelLeaf>)
    requires 1 < |stack| && stack[|stack| - 1].level == stack[|stack| - 2].level && 0 < stack[|stack| - 1].level
    ensures var n := |stack|; var joined := Joined(stack[n - 2].node, stack[n - 1].node);
      Leading(stack, rest) == if stack[n - 1].level == 1 then Some(joined)
                              else Leading(stack[..n - 2] + [LevelNode(stack[n - 1].level - 1, joined)], rest)
  {
    var n := |stack|;
    var joined := LevelNode(stack[n - 1].level - 1, Joined(stack[n - 2].node, stack[n - 1].node));
    assert stack[..n - 1][..n - 2] == stack[..n - 2];
    assert (stack[..n - 2] + [joined])[..n - 2] == stack[..n - 2];
  }

  lemma EmptyFrontier()
    ensures Frontier([]) == []
  {
  }

  lemma JoinStep(stack: seq<LevelNode>, rest: seq<LevelLeaf>, leaves: seq<LevelLeaf>, joined: Tree)
    requires 1 < |stack| && Frontier(stack) + rest == leaves
    requires stack[|stack| - 1].level == stack[|stack| - 2].level && 0 < stack[|stack| - 1].level
    requires Canonical(stack[|stack| - 1].node) && Canonical(stack[|stack| - 2].node)
    requires joined == Joined(stack[|stack| - 2].node, stack[|stack| - 1].node)
    ensures Canonical(joined) && RightMost(joined) == RightMost(stack[|stack| - 1].node)
    ensures var n := |stack|; var level := stack[n - 1].level - 1;
      && Frontier(stack[..n - 2] + [LevelNode(level, joined)]) + rest == leaves
      && Within(LeafLevels(joined, level), leaves)
  {
    hide Frontier;
    var n := |stack|;
    var below, level := stack[..n - 2], stack[n - 1].level - 1;
    assert stack == below + [stack[n - 2]] + [stack[n - 1]];
    FrontierJoin(below, stack[n - 2], stack[n - 1]);
    FrontierSnoc(below, LevelNode(level, joined));
    assert leaves == Frontier(below) + LeafLevels(joined, level) + rest;
  }

  lemma EmptyLeads(leaves: seq<LevelLeaf>)
    ensures Leading([], leaves) == Outcome(leaves)
  {
  }

  /** Rebuilds a tree from leaves and levels with a stack. Whatever the levels, the result is
      their outcome, and a resulting tree has some neighbouring leaves at their levels. */
  method Reconstruct(leaves: seq<LevelLeaf>) returns (r: Option<Tree>)
    requires 1 < |leaves| && forall i :: 0 <= i < |leaves| ==> 0 < leaves[i].level
    ensures r == Outcome(leaves)
    ensures r.Some? ==> r.value.Node? && Canonical(r.value) && Within(LeafLevels(r.value, 0), leaves)
  {
    hide Climb, Parse, Frontier, Leading, LeafLevels, RightMost, Outcome, Within;
    var stack: seq<LevelNode>, symbols: seq<Byte>, rest := [], [], leaves;
    assert Leading(stack, rest) == Outcome(leaves) by {
      EmptyLeads(leaves);
    }
    EmptyFrontier();
    while true
      invariant StackFits(stack, symbols) && Frontier(stack) + rest == leaves
      invariant forall i :: 0 <= i < |rest| ==> 0 < rest[i].level
      invariant Leading(stack, rest) == Outcome(leaves)
      decreases |stack| + 2 * |rest|
    {
      var n := |stack|;
      if 1 < n && stack[n - 1].level == stack[n - 2].level {
        var right, left := stack[n - 1], stack[n - 2];
        var rs, ls := symbols[n - 1], symbols[n - 2];
        var joined := LevelNode(left.level - 1, Node(ls, left.node, right.node));
        JoinStep(stack, rest, leaves, joined.node);
        NextJoin(stack, rest);
        if joined.level == 0 {
          return Some(joined.node);
        }
        stack := stack[..n - 2] + [joined];
        symbols := symbols[..n - 2] + [rs];
      } else if rest != [] {
        NextShift(stack, rest);
        FrontierSnoc(stack, LevelNode(rest[0].level, Leaf(rest[0].symbol)));
        LeafAlone(rest[0]);
        stack := stack + [LevelNode(rest[0].level, Leaf(rest[0].symbol))];
        symbols := symbols + [rest[0].symbol];
        rest := rest[1..];
      } else {
        NextShift(stack, rest);
        return None;
      }
    }
  }

  // ---- The sum of levels ----

  /** `2 ** -level` */
  function Share(level: nat): (r: real)
    ensures 0.0 < r
  {
    if level == 0 then 1.0 else Share(level - 1) / 2.0
  }

  /** The Kraft sum of some leaves. */
  function Kraft(leaves: seq<LevelLeaf>): (r: real)
    ensures 0.0 <= r && (leaves != [] ==> 0.0 < r)
  {
    if leaves == [] then 0.0 else Share(leaves[0].level) + Kraft(leaves[1..])
  }

  lemma {:induction false} KraftConcat(a: seq<LevelLeaf>, b: seq<LevelLeaf>)
    ensures Kraft(a + b) == Kraft(a) + Kraft(b)
  {
    if a == [] {
      assert a + b == b;
    } else {
      KraftConcat(a[1..], b);
      assert (a + b)[1..] == a[1..] + b;
    }
  }

  /** The leaves of a tree share what the tree has. */
  lemma {:induction false} KraftOfTree(t: Tree, level: nat)
    ensures Kraft(LeafLevels(t, level)) == Share(level)
  {
    match t
    case Leaf(symbol) =>
      assert LeafLevels(t, level)[1..] == [];
    case Node(_, left, right) =>
      KraftOfTree(left, level + 1);
      KraftOfTree(right, level + 1);
      KraftConcat(LeafLevels(left, level + 1), LeafLevels(right, level + 1));
      assert Share(level + 1) == Share(level) / 2.0;
  }

  lemma KraftWithin(t: Tree, leaves: seq<LevelLeaf>)
    requires Within(LeafLevels(t, 0), leaves)
    ensures 1.0 <= Kraft(leaves)
    ensures Kraft(leaves) == 1.0 <==> LeafLevels(t, 0) == leaves
  {
    var before, after :| leaves == before + LeafLevels(t, 0) + after;
    KraftConcat(before + LeafLevels(t, 0), after);
    KraftConcat(before, LeafLevels(t, 0));
    KraftOfTree(t, 0);
    if before == [] && after == [] {
      assert before + LeafLevels(t, 0) + after == LeafLevels(t, 0);
    }
  }

  lemma {:induction false} StuckIsSuffix(level: nat, leaves: seq<LevelLeaf>) returns (k: nat)
    requires Parse(level, leaves).Misaligned?
    ensures k <= |leaves| && Parse(level, leaves).stuck == leaves[k..]
    decreases |leaves|, if leaves == [] then 0 else leaves[0].level - level
  {
    if leaves == [] || leaves[0].level < level {
      k := 0;
    } else if Parse(level + 1, leaves).Misaligned? {
      k := StuckIsSuffix(level + 1, leaves);
    } else {
      var left := Parse(level + 1, leaves);
      var j := StuckIsSuffix(level + 1, left.rest);
      ParseIsSound(level + 1, leaves);
      k := |leaves| - |left.rest| + j;
      assert leaves[|leaves| - |left.rest|..] == left.rest;
    }
  }

  /** An outcome is a tree with some neighbouring leaves at their levels. */
  lemma {:induction false} OutcomeIsWithin(leaves: seq<LevelLeaf>)
    requires Outcome(leaves).Some?
    ensures Within(LeafLevels(Outcome(leaves).value, 0), leaves)
    decreases |leaves|
  {
    hide LeafLevels, Parse, Canonical;
    var r := Parse(0, leaves);
    if r.Read? {
      ParseIsSound(0, leaves);
      assert leaves == [] + LeafLevels(r.tree, 0) + r.rest;
    } else {
      OutcomeIsWithin(r.stuck);
      var part := LeafLevels(Outcome(leaves).value, 0);
      var before, after :| r.stuck == before + part + after;
      var k := StuckIsSuffix(0, leaves);
      assert leaves == (leaves[..k] + before) + part + after;
    }
  }

  lemma {:induction false} OutcomeIsCanonical(leaves: seq<LevelLeaf>)
    requires Outcome(leaves).Some?
    ensures Canonical(Outcome(leaves).value)
    decreases |leaves|
  {
    if Parse(0, leaves).Read? {
      ParseIsSound(0, leaves);
    } else {
      OutcomeIsCanonical(Parse(0, leaves).stuck);
    }
  }

  /** When reconstruction fails and when it leaves leaves over: below a sum of one it fails,
      at one it succeeds exactly if the levels are those of a tree, and a tree that results
      leaves leaves over exactly if the sum is above one. */
  lemma OutcomeBySum(leaves: seq<LevelLeaf>)
    ensures Kraft(leaves) < 1.0 ==> Outcome(leaves) == None
    ensures Kraft(leaves) == 1.0 ==> (Outcome(leaves).Some? <==> Aligned(leaves))
    ensures Aligned(leaves) ==> Outcome(leaves) == Some(Parse(0, leaves).tree)
    ensures Outcome(leaves).Some? ==> (LeafLevels(Outcome(leaves).value, 0) != leaves <==> 1.0 < Kraft(leaves))
  {
    hide Kraft, Within, LeafLevels;
    if Outcome(leaves).Some? {
      OutcomeIsWithin(leaves);
      KraftWithin(Outcome(leaves).value, leaves);
      OutcomeIsCanonical(leaves);
      AlignedExactly(leaves);
    }
  }

  lemma TwoLeaves(a: Byte, b: Byte, rest: seq<LevelLeaf>)
    ensures Parse(0, [LevelLeaf(1, a), LevelLeaf(1, b)] + rest) == Read(Joined(Leaf(a), Leaf(b)), rest)
  {
    ParseInverts(Joined(Leaf(a), Leaf(b)), 0, rest);
    assert LeafLevels(Joined(Leaf(a), Leaf(b)), 0) == [LevelLeaf(1, a), LevelLeaf(1, b)];
  }

  /** Three leaves at level 1: the tree of the first two results, the third is left over. */
  lemma LeafLeftOver(a: Byte, b: Byte, c: Byte)
    ensures Outcome([LevelLeaf(1, a), LevelLeaf(1, b), LevelLeaf(1, c)]) == Some(Joined(Leaf(a), Leaf(b)))
  {
    TwoLeaves(a, b, [LevelLeaf(1, c)]);
    assert [LevelLeaf(1, a), LevelLeaf(1, b)] + [LevelLeaf(1, c)]
        == [LevelLeaf(1, a), LevelLeaf(1, b), LevelLeaf(1, c)];
  }

  /** Leaves at levels 2, 1, 1: the first waits on the stack and is never joined. */
  lemma LeafBuried(a: Byte, b: Byte, c: Byte)
    ensures Outcome([LevelLeaf(2, a), LevelLeaf(1, b), LevelLeaf(1, c)]) == Some(Joined(Leaf(b), Leaf(c)))
  {
    var two, leaves := [LevelLeaf(1, b), LevelLeaf(1, c)], [LevelLeaf(2, a), LevelLeaf(1, b), LevelLeaf(1, c)];
    assert leaves[1..] == two;
    assert Parse(2, leaves) == Read(Leaf(a), two) && Parse(2, two) == Misaligned(two);
    assert Parse(1, leaves) == Misaligned(two) && Parse(0, leaves) == Misaligned(two);
    TwoLeaves(b, c, []);
    assert two + [] == two;
  }

  // ---- The order of symbols ----

  ghost predicate SymbolsIncrease(leaves: seq<LevelLeaf>) {
    forall i, j :: 0 <= i < j < |leaves| ==> Signed(leaves[i].symbol) < Signed(leaves[j].symbol)
  }

  ghost predicate HasSymbol(leaves: seq<LevelLeaf>, s: Byte) {
    exists i :: 0 <= i < |leaves| && leaves[i].symbol == s
  }

  lemma HasSymbolConcat(a: seq<LevelLeaf>, b: seq<LevelLeaf>, s: Byte)
    ensures HasSymbol(a + b, s) <==> HasSymbol(a, s) || HasSymbol(b, s)
  {
    if HasSymbol(a, s) {
      var i :| 0 <= i < |a| && a[i].symbol == s;
      assert (a + b)[i].symbol == s;
    }
    if HasSymbol(b, s) {
      var i :| 0 <= i < |b| && b[i].symbol == s;
      assert (a + b)[|a| + i].symbol == s;
    }
  }

  /** The listed leaves are the tree's leaves. */
  lemma {:induction false} LeavesListed(t: Tree, level: nat, s: Byte)
    ensures s in Leaves(t) <==> HasSymbol(LeafLevels(t, level), s)
  {
    match t
    case Leaf(symbol) =>
      assert LeafLevels(t, level)[0].symbol == symbol;
    case Node(_, left, right) =>
      hide HasSymbol;
      LeavesListed(left, level + 1, s);
      LeavesListed(right, level + 1, s);
      HasSymbolConcat(LeafLevels(left, level + 1), LeafLevels(right, level + 1), s);
  }

  lemma {:induction false} RightMostIsLast(t: Tree, level: nat)
    ensures var ls := LeafLevels(t, level); RightMost(t) == ls[|ls| - 1].symbol
  {
    if t.Node? {
      RightMostIsLast(t.right, level + 1);
    }
  }

  lemma HalvesIncrease(left: seq<LevelLeaf>, right: seq<LevelLeaf>)
    requires SymbolsIncrease(left + right)
    ensures SymbolsIncrease(left) && SymbolsIncrease(right)
    ensures forall i, j :: 0 <= i < |left| && 0 <= j < |right| ==> Signed(left[i].symbol) < Signed(right[j].symbol)
  {
    var all := left + right;
    assert forall i :: 0 <= i < |left| ==> left[i] == all[i];
    assert forall i :: 0 <= i < |right| ==> right[i] == all[|left| + i];
  }

  /** In symbol order, the last leaf bounds the others. */
  lemma UpToRightMost(t: Tree, level: nat, s: Byte)
    requires SymbolsIncrease(LeafLevels(t, level)) && s in Leaves(t)
    ensures Signed(s) <= Signed(RightMost(t))
  {
    LeavesListed(t, level, s);
    RightMostIsLast(t, level);
  }

  /** Leaves in symbol order make an ordered tree. */
  lemma {:induction false} OrderedTree(t: Tree, level: nat)
    requires Canonical(t) && SymbolsIncrease(LeafLevels(t, level))
    ensures Ordered(t)
  {
    if t.Node? {
      var left, right := LeafLevels(t.left, level + 1), LeafLevels(t.right, level + 1);
      assert LeafLevels(t, level) == left + right;
      hide LeafLevels, SymbolsIncrease, RightMost;
      HalvesIncrease(left, right);
      OrderedTree(t.left, level + 1);
      OrderedTree(t.right, level + 1);
      forall s | s in Leaves(t.left) ensures Signed(s) <= Signed(t.split) {
        UpToRightMost(t.left, level + 1, s);
      }
      forall s | s in Leaves(t.right) ensures Signed(t.split) < Signed(s) {
        LeavesListed(t.right, level + 1, s);
        RightMostIsLast(t.left, level + 1);
      }
    }
  }

  function InsertLeaf(s: seq<LevelLeaf>, e: LevelLeaf): (r: seq<LevelLeaf>)
    ensures multiset(r) == multiset(s) + multiset{e}
  {
    if s == [] || Signed(s[|s| - 1].symbol) <= Signed(e.symbol) then s + [e]
    else
      assert s == s[..|s| - 1] + [s[|s| - 1]];
      InsertLeaf(s[..|s| - 1], e) + [s[|s| - 1]]
  }

  lemma {:induction false} InsertIncreases(s: seq<LevelLeaf>, e: LevelLeaf)
    requires SymbolsIncrease(s) && forall i :: 0 <= i < |s| ==> s[i].symbol != e.symbol
    ensures SymbolsIncrease(InsertLeaf(s, e))
  {
    if s != [] && Signed(e.symbol) < Signed(s[|s| - 1].symbol) {
      var init, last := s[..|s| - 1], s[|s| - 1];
      InsertIncreases(init, e);
      var r := InsertLeaf(init, e);
      forall i | 0 <= i < |r| ensures Signed(r[i].symbol) < Signed(last.symbol) {
        assert r[i] in multiset(r);
        if r[i] != e {
          assert r[i] in init;
        }
      }
    }
  }

  ghost predicate Distinct(s: seq<LevelLeaf>) {
    forall i, j :: 0 <= i < j < |s| ==> s[i].symbol != s[j].symbol
  }

  /** `std::sort` of the leaves by symbol. */
  function SortLeaves(s: seq<LevelLeaf>): (r: seq<LevelLeaf>)
    ensures multiset(r) == multiset(s)
  {
    if s == [] then []
    else
      assert s == s[..|s| - 1] + [s[|s| - 1]];
      InsertLeaf(SortLeaves(s[..|s| - 1]), s[|s| - 1])
  }

  lemma {:induction false} SortIncreases(s: seq<LevelLeaf>)
    requires Distinct(s)
    ensures SymbolsIncrease(SortLeaves(s))
  {
    if s != [] {
      var init, last := s[..|s| - 1], s[|s| - 1];
      SortIncreases(init);
      forall i | 0 <= i < |SortLeaves(init)| ensures SortLeaves(init)[i].symbol != last.symbol {
        assert SortLeaves(init)[i] in multiset(init);
      }
      InsertIncreases(SortLeaves(init), last);
    }
  }

  lemma {:induction false} KraftOfInserted(s: seq<LevelLeaf>, e: LevelLeaf)
    ensures Kraft(InsertLeaf(s, e)) == Kraft(s) + Share(e.level)
  {
    assert [e][1..] == [] && Kraft([e]) == Share(e.level);
    if s == [] || Signed(s[|s| - 1].symbol) <= Signed(e.symbol) {
      KraftConcat(s, [e]);
    } else {
      var init, last := s[..|s| - 1], [s[|s| - 1]];
      KraftOfInserted(init, e);
      KraftConcat(InsertLeaf(init, e), last);
      KraftConcat(init, last);
      assert s == init + last;
    }
  }

  lemma {:induction false} KraftOfSorted(s: seq<LevelLeaf>)
    ensures Kraft(SortLeaves(s)) == Kraft(s)
  {
    if s != [] {
      var init, last := s[..|s| - 1], s[|s| - 1];
      KraftOfSorted(init);
      KraftOfInserted(SortLeaves(init), last);
      KraftConcat(init, [last]);
      assert s == init + [last] && [last][1..] == [];
    }
  }

  // ---- Tagging leaves ----

  function Size(t: Tree): nat {
    match t
    case Leaf(_) => 1
    case Node(_, left, right) => 1 + Size(left) + Size(right)
  }

  function StackSize(stack: seq<LevelNode>): nat {
    if stack == [] then 0 else StackSize(stack[..|stack| - 1]) + Size(stack[|stack| - 1].node)
  }

  /** The leaves of the waiting trees, from the top of the stack down. */
  function Waiting(stack: seq<LevelNode>): seq<LevelLeaf> {
    if stack == [] then []
    else
      var top := stack[|stack| - 1];
      LeafLevels(top.node, top.level) + Waiting(stack[..|stack| - 1])
  }

  lemma PushedWaits(stack: seq<LevelNode>, top: LevelNode)
    ensures Waiting(stack + [top]) == LeafLevels(top.node, top.level) + Waiting(stack)
    ensures StackSize(stack + [top]) == StackSize(stack) + Size(top.node)
  {
    assert (stack + [top])[..|stack|] == stack;
  }

  lemma LeafStep(leaves: seq<LevelLeaf>, current: LevelNode, stack: seq<LevelNode>)
    requires current.node.Leaf?
    ensures LeafLevels(current.node, current.level) == [LevelLeaf(current.level, current.node.symbol)]
    ensures stack == [] ==> leaves + LeafLevels(current.node, current.level) + Waiting(stack)
                            == leaves + [LevelLeaf(current.level, current.node.symbol)]
    ensures stack != [] ==>
      (var below, top := stack[..|stack| - 1], stack[|stack| - 1];
       && leaves + LeafLevels(current.node, current.level) + Waiting(stack)
          == leaves + [LevelLeaf(current.level, current.node.symbol)] + LeafLevels(top.node, top.level) + Waiting(below)
       && Size(top.node) + StackSize(below) == StackSize(stack))
  {
  }

  lemma NodeStep(leaves: seq<LevelLeaf>, current: LevelNode, stack: seq<LevelNode>)
    requires current.node.Node?
    ensures var level := current.level + 1;
      var right, left := LevelNode(level, current.node.right), LevelNode(level, current.node.left);
      && leaves + LeafLevels(current.node, current.level) + Waiting(stack)
         == leaves + LeafLevels(left.node, left.level) + Waiting(stack + [right])
      && Size(left.node) + StackSize(stack + [right]) < Size(current.node) + StackSize(stack)
  {
    hide Waiting, StackSize;
    PushedWaits(stack, LevelNode(current.level + 1, current.node.right));
  }

  lemma NothingWaits(all: seq<LevelLeaf>)
    ensures [] + all + Waiting([]) == all
  {
  }

  /** The leaves of a tree with their levels, sorted by symbol. */
  method TagLeaves(root: Tree) returns (leaves: seq<LevelLeaf>)
    ensures leaves == SortLeaves(LeafLevels(root, 0))
  {
    hide Waiting, StackSize, LeafLevels;
    var stack: seq<LevelNode>, current := [], LevelNode(0, root);
    leaves := [];
    NothingWaits(LeafLevels(root, 0));
    while true
      invariant leaves + LeafLevels(current.node, current.level) + Waiting(stack) == LeafLevels(root, 0)
      decreases Size(current.node) + StackSize(stack)
    {
      if current.node.Leaf? {
        LeafStep(leaves, current, stack);
        leaves := leaves + [LevelLeaf(current.level, current.node.symbol)];
        if stack == [] {
          break;
        }
        current := stack[|stack| - 1];
        stack := stack[..|stack| - 1];
      } else {
        NodeStep(leaves, current, stack);
        stack := stack + [LevelNode(current.level + 1, current.node.right)];
        current := LevelNode(current.level + 1, current.node.left);
      }
    }
    leaves := SortLeaves(leaves);
  }

  // ---- The codec's tree ----

  lemma {:induction false} LevelsBelow(t: Tree, level: nat, i: nat)
    requires i < |LeafLevels(t, level)|
    ensures LeafLevels(t, level)[i].level >= if t.Node? then level + 1 else level
  {
    match t
    case Leaf(_) =>
    case Node(_, left, right) =>
      var n := |LeafLevels(left, level + 1)|;
      if i < n {
        LevelsBelow(left, level + 1, i);
      } else {
        LevelsBelow(right, level + 1, i - n);
      }
  }

  /** The leaves of a tree with several leaves all have levels above zero. */
  lemma TaggedLevels(root: Tree)
    requires root.Node?
    ensures var leaves := SortLeaves(LeafLevels(root, 0));
      1 < |leaves| && forall i :: 0 <= i < |leaves| ==> 0 < leaves[i].level
  {
    hide SortLeaves;
    var ls := LeafLevels(root, 0);
    var leaves := SortLeaves(ls);
    assert |leaves| == |multiset(leaves)| == |multiset(ls)| == |ls|;
    forall i | 0 <= i < |leaves| ensures 0 < leaves[i].level {
      assert leaves[i] in multiset(ls);
      var j :| 0 <= j < |ls| && ls[j] == leaves[i];
      LevelsBelow(root, 0, j);
    }
  }

  /** A leaf's level is the length of its symbol's code. */
  lemma {:induction false} LevelsAreCodeLengths(t: Tree, level: nat, i: nat)
    requires Ordered(t) && i < |LeafLevels(t, level)|
    ensures var leaf := LeafLevels(t, level)[i];
      leaf.symbol in Leaves(t) && leaf.level == level + |Code(t, leaf.symbol)|
  {
    match t
    case Leaf(_) =>
    case Node(_, left, right) =>
      var n := |LeafLevels(left, level + 1)|;
      if i < n {
        LevelsAreCodeLengths(left, level + 1, i);
      } else {
        LevelsAreCodeLengths(right, level + 1, i - n);
      }
  }

  lemma SymbolMoves(a: seq<LevelLeaf>, b: seq<LevelLeaf>, s: Byte)
    requires multiset(a) == multiset(b) && HasSymbol(a, s)
    ensures HasSymbol(b, s)
  {
    var i :| 0 <= i < |a| && a[i].symbol == s;
    assert a[i] in multiset(b);
  }

  lemma SameLeaves(first: Tree, t: Tree)
    requires LeafLevels(t, 0) == SortLeaves(LeafLevels(first, 0))
    ensures Leaves(t) == Leaves(first)
  {
    hide SortLeaves, LeafLevels, Leaves, HasSymbol;
    var a, b := LeafLevels(first, 0), LeafLevels(t, 0);
    forall s ensures s in Leaves(t) <==> s in Leaves(first) {
      LeavesListed(t, 0, s);
      LeavesListed(first, 0, s);
      if HasSymbol(a, s) {
        SymbolMoves(a, b, s);
      }
      if HasSymbol(b, s) {
        SymbolMoves(b, a, s);
      }
    }
  }

  /** The tagged leaves of the first phase have a sum of one, so they make a tree with all
      symbols or none. */
  lemma TaggedOutcome(first: Tree)
    requires Distinct(LeafLevels(first, 0))
    ensures var leaves := SortLeaves(LeafLevels(first, 0));
      && (Outcome(leaves).Some? <==> Aligned(leaves))
      && (Outcome(leaves).Some? ==>
            (var t := Outcome(leaves).value;
             t == Parse(0, leaves).tree && LeafLevels(t, 0) == leaves && Leaves(t) == Leaves(first) && Ordered(t)))
  {
    hide SortLeaves, Kraft, LeafLevels, Leaves, Ordered;
    var leaves := SortLeaves(LeafLevels(first, 0));
    KraftOfTree(first, 0);
    KraftOfSorted(LeafLevels(first, 0));
    OutcomeBySum(leaves);
    if Outcome(leaves).Some? {
      var t := Outcome(leaves).value;
      SameLeaves(first, t);
      SortIncreases(LeafLevels(first, 0));
      OutcomeIsCanonical(leaves);
      OrderedTree(t, 0);
    }
  }

  lemma CodesAsTagged(leaves: seq<LevelLeaf>, t: Tree)
    requires Ordered(t) && LeafLevels(t, 0) == SortLeaves(leaves)
    ensures forall leaf :: leaf in leaves ==> |Code(t, leaf.symbol)| == leaf.level
  {
    hide SortLeaves, LeafLevels, Ordered, Code;
    forall leaf | leaf in leaves ensures |Code(t, leaf.symbol)| == leaf.level {
      assert leaf in multiset(LeafLevels(t, 0));
      var i :| 0 <= i < |LeafLevels(t, 0)| && LeafLevels(t, 0)[i] == leaf;
      LevelsAreCodeLengths(t, 0, i);
    }
  }

  /** From the first-phase tree to the bytes of the codec's tree. Bytes result exactly if the
      levels are those of an alphabetic tree; then they stand for that tree, which is ordered
      and has all the symbols, each with a code of its level's length. */
  method CodecTree(first: Tree) returns (mem: Option<seq<Byte>>)
    requires first.Node? && Distinct(LeafLevels(first, 0))
    ensures mem.Some? <==> Aligned(SortLeaves(LeafLevels(first, 0)))
    ensures mem.Some? ==>
      (var t := Parse(0, SortLeaves(LeafLevels(first, 0))).tree;
       && Represents(mem.value, SYMBOL_BOUND, t) && t.Node? && Ordered(t)
       && Leaves(t) == Leaves(first) && LeafLevels(t, 0) == SortLeaves(LeafLevels(first, 0)))
    ensures mem.Some? ==>
      forall leaf :: leaf in LeafLevels(first, 0) ==>
        |Code(Parse(0, SortLeaves(LeafLevels(first, 0))).tree, leaf.symbol)| == leaf.level
  {
    hide SortLeaves, Within, Represents, Canonical, Ordered, Outcome, Parse, Aligned, LeafLevels, Leaves, Distinct;
    TaggedLevels(first);
    TaggedOutcome(first);
    var leaves := TagLeaves(first);
    var root := Reconstruct(leaves);
    if root == None {
      return None;
    }
    Compact.OrderedIsSmall(root.value);
    var bytes;
    ghost var order, places;
    bytes, order, places := Compact.CompactTree(root.value);
    CodesAsTagged(LeafLevels(first, 0), root.value);
    return Some(bytes);
  }
}
