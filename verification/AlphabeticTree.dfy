/**
 The alphabetic code tree laid out in bytes (`irk::alphabetical_bst<char, uint16_t>`):
 a node is a symbol byte and two little-endian 16-bit pointers. A pointer below 256 is a
 symbol, any other is 256 plus the byte offset of a node; the root is the node at offset 0.
 */
module AlphabeticTree {
  import opened BitMemory
  import opened BitStream

  type Byte = b: int | 0 <= b < 256

  type Word = seq<Byte>

  const SYMBOL_BOUND: nat := 256
  const NODE_SIZE: nat := 5

  /** The value of a byte as the program's symbol type, a signed `char`. */
  function Signed(b: Byte): (r: int)
    ensures -128 <= r < 128 && (r == b || r == b - 256)
  {
    if b < 128 then b else b - 256
  }

  /** The tree the bytes stand for: symbols up to `split` are coded to the left. */
  datatype Tree = Leaf(symbol: Byte) | Node(split: Byte, left: Tree, right: Tree)

  function Pointer(mem: seq<Byte>, at: nat): nat
    requires at + 2 <= |mem|
  {
    mem[at] as int + 256 * (mem[at + 1] as int)
  }

  ghost predicate Represents(mem: seq<Byte>, ptr: nat, t: Tree)
    decreases t
  {
    match t
    case Leaf(symbol) => ptr == symbol
    case Node(split, left, right) =>
      && SYMBOL_BOUND <= ptr && ptr - SYMBOL_BOUND + NODE_SIZE <= |mem|
      && var node := ptr - SYMBOL_BOUND;
      && mem[node] == split
      && Represents(mem, Pointer(mem, node + 1), left)
      && Represents(mem, Pointer(mem, node + 3), right)
  }

  ghost function Leaves(t: Tree): set<Byte> {
    match t
    case Leaf(symbol) => {symbol}
    case Node(_, left, right) => Leaves(left) + Leaves(right)
  }

  /** Every left leaf is at most the split symbol, every right leaf above it. */
  ghost predicate Ordered(t: Tree) {
    t.Node? ==>
      && Ordered(t.left) && Ordered(t.right)
      && (forall s :: s in Leaves(t.left) ==> Signed(s) <= Signed(t.split))
      && (forall s :: s in Leaves(t.right) ==> Signed(t.split) < Signed(s))
  }

  ghost function Code(t: Tree, symbol: Byte): seq<bool> {
    match t
    case Leaf(_) => []
    case Node(split, left, right) =>
      if Signed(symbol) > Signed(split) then [true] + Code(right, symbol) else [false] + Code(left, symbol)
  }

  /** The code spells the way from the root to a leaf: 0 to the left, 1 to the right, and
      right exactly where the symbol is above the split. */
  lemma {:induction false} CodeIsPath(t: Tree, symbol: Byte) returns (path: seq<Tree>)
    ensures |path| == |Code(t, symbol)| + 1 && path[0] == t && path[|path| - 1].Leaf?
    ensures forall i :: 0 <= i < |path| - 1 ==>
      && path[i].Node? && (Code(t, symbol)[i] <==> Signed(path[i].split) < Signed(symbol))
      && path[i + 1] == if Code(t, symbol)[i] then path[i].right else path[i].left
    ensures Ordered(t) && symbol in Leaves(t) ==> path[|path| - 1] == Leaf(symbol)
  {
    if t.Leaf? {
      path := [t];
    } else {
      var rest := CodeIsPath(if Signed(t.split) < Signed(symbol) then t.right else t.left, symbol);
      path := [t] + rest;
    }
  }

  datatype Decoded = Ended | Symbol(value: Byte, rest: seq<bool>)

  /** Follows bits down the tree to a leaf. */
  ghost function Decode(t: Tree, bits: seq<bool>): Decoded {
    match t
    case Leaf(symbol) => Symbol(symbol, bits)
    case Node(_, left, right) =>
      if bits == [] then Ended
      else Decode(if bits[0] then right else left, bits[1..])
  }

  /** Decoding inverts coding and consumes exactly the code, whatever follows it. */
  lemma {:induction false} DecodeInvertsCode(t: Tree, symbol: Byte, rest: seq<bool>)
    requires Ordered(t) && symbol in Leaves(t)
    ensures Decode(t, Code(t, symbol) + rest) == Symbol(symbol, rest)
  {
    if t.Leaf? {
      assert Code(t, symbol) + rest == rest;
    } else {
      var child := if Signed(symbol) > Signed(t.split) then t.right else t.left;
      DecodeInvertsCode(child, symbol, rest);
      assert (Code(t, symbol) + rest)[1..] == Code(child, symbol) + rest;
    }
  }

  lemma CodeStep(t: Tree, symbol: Byte, bit: bool)
    requires t.Node? && Ordered(t) && symbol in Leaves(if bit then t.right else t.left)
    ensures Code(t, symbol) == [bit] + Code(if bit then t.right else t.left, symbol)
  {
  }

  lemma ChildOrdered(t: Tree, right: bool)
    requires t.Node? && Ordered(t)
    ensures var child := if right then t.right else t.left;
      Ordered(child) && forall s :: s in Leaves(child) ==> s in Leaves(t)
  {
  }

  lemma DecodeChild(t: Tree, bits: seq<bool>)
    requires t.Node? && Decode(t, bits).Symbol?
    ensures bits != [] && Decode(t, bits) == Decode(if bits[0] then t.right else t.left, bits[1..])
  {
  }

  /** What is decoded is a leaf, and the bits read are its code. */
  lemma {:induction false} CodeInvertsDecode(t: Tree, bits: seq<bool>)
    requires Ordered(t) && Decode(t, bits).Symbol?
    ensures Decode(t, bits).value in Leaves(t)
    ensures bits == Code(t, Decode(t, bits).value) + Decode(t, bits).rest
  {
    if t.Leaf? {
      assert bits == Code(t, t.symbol) + bits;
    } else {
      hide Code, Ordered, Leaves, Decode;
      DecodeChild(t, bits);
      var child := if bits[0] then t.right else t.left;
      ChildOrdered(t, bits[0]);
      CodeInvertsDecode(child, bits[1..]);
      var value, rest := Decode(child, bits[1..]).value, Decode(child, bits[1..]).rest;
      CodeStep(t, value, bits[0]);
      ConsRest(bits[0], Code(child, value), rest);
      assert bits == [bits[0]] + bits[1..];
    }
  }

  /** `a` and `b` first differ at `i`, where `a` has a 0 and `b` a 1. */
  ghost predicate BranchAt(a: seq<bool>, b: seq<bool>, i: nat) {
    i < |a| && i < |b| && !a[i] && b[i] && forall m :: 0 <= m < i ==> a[m] == b[m]
  }

  /** The first difference decides, so neither sequence is a prefix of the other. */
  ghost predicate BranchesBefore(a: seq<bool>, b: seq<bool>) {
    exists i :: BranchAt(a, b, i)
  }

  lemma BranchesUnder(p: seq<bool>, a: seq<bool>, b: seq<bool>)
    requires BranchesBefore(a, b)
    ensures BranchesBefore(p + a, p + b)
  {
    var i :| BranchAt(a, b, i);
    assert BranchAt(p + a, p + b, |p| + i);
  }

  /** Codes keep the symbols' order, and no code is a prefix of another. */
  lemma {:induction false} CodeKeepsOrder(t: Tree, s: Byte, u: Byte)
    requires Ordered(t) && s in Leaves(t) && u in Leaves(t) && Signed(s) < Signed(u)
    ensures BranchesBefore(Code(t, s), Code(t, u))
  {
    match t
    case Leaf(_) =>
    case Node(split, left, right) =>
      if Signed(split) < Signed(s) {
        CodeKeepsOrder(right, s, u);
        BranchesUnder([true], Code(right, s), Code(right, u));
      } else if Signed(u) <= Signed(split) {
        CodeKeepsOrder(left, s, u);
        BranchesUnder([false], Code(left, s), Code(left, u));
      } else {
        assert BranchAt(Code(t, s), Code(t, u), 0);
      }
  }

  // ---- Coding over the bytes ----

  /** Appends the code of a symbol to a bitset. */
  method EncodeBits(mem: seq<Byte>, ghost t: Tree, symbol: Byte, sink: seq<bool>) returns (code: seq<bool>)
    requires t.Node? && Represents(mem, SYMBOL_BOUND, t)
    ensures code == sink + Code(t, symbol)
  {
    code := sink;
    var node: nat := 0;
    ghost var sub := t;
    while true
      invariant sub.Node? && Represents(mem, SYMBOL_BOUND + node, sub)
      invariant code + Code(sub, symbol) == sink + Code(t, symbol)
      decreases sub
    {
      var goright := Signed(symbol) > Signed(mem[node]);
      var next := if goright then Pointer(mem, node + 3) else Pointer(mem, node + 1);
      assert code + Code(sub, symbol)
          == code + [goright] + Code(if goright then sub.right else sub.left, symbol);
      code := code + [goright];
      sub := if goright then sub.right else sub.left;
      if next < SYMBOL_BOUND {
        break;
      }
      node := next - SYMBOL_BOUND;
    }
  }

  /** Writes the code of a symbol to a bit stream. */
  method EncodeTo(mem: seq<Byte>, ghost t: Tree, symbol: Byte, sink: OutputBitStream)
    requires t.Node? && Represents(mem, SYMBOL_BOUND, t) && sink.Valid()
    modifies sink
    ensures sink.Valid() && sink.written == old(sink.written) + Code(t, symbol)
    ensures old(sink.out) <= sink.out
  {
    var node: nat := 0;
    ghost var sub := t;
    while true
      invariant sink.Valid() && old(sink.out) <= sink.out
      invariant sub.Node? && Represents(mem, SYMBOL_BOUND + node, sub)
      invariant sink.written + Code(sub, symbol) == old(sink.written) + Code(t, symbol)
      decreases sub
    {
      var goright := Signed(symbol) > Signed(mem[node]);
      var next := if goright then Pointer(mem, node + 3) else Pointer(mem, node + 1);
      assert sink.written + Code(sub, symbol)
          == sink.written + [goright] + Code(if goright then sub.right else sub.left, symbol);
      sink.Write(goright);
      sub := if goright then sub.right else sub.left;
      if next < SYMBOL_BOUND {
        break;
      }
      node := next - SYMBOL_BOUND;
    }
  }

  datatype Read = EndOfStream | Found(symbol: Byte)

  /** Reads one symbol from a bit stream; the program throws when the stream ends early. */
  method DecodeFrom(mem: seq<Byte>, ghost t: Tree, source: InputBitStream) returns (r: Read)
    requires t.Node? && Represents(mem, SYMBOL_BOUND, t) && source.Valid()
    modifies source
    ensures source.Valid()
    ensures match Decode(t, old(source.Rest()))
            case Ended => r == EndOfStream
            case Symbol(value, rest) => r == Found(value) && source.Rest() == rest
  {
    var next: nat := SYMBOL_BOUND;
    ghost var sub := t;
    while next >= SYMBOL_BOUND
      invariant source.Valid() && Represents(mem, next, sub)
      invariant Decode(sub, source.Rest()) == Decode(t, old(source.Rest()))
      decreases sub
    {
      var bit := source.Read();
      if bit == -1 {
        return EndOfStream;
      }
      var node := next - SYMBOL_BOUND;
      next := if bit != 0 then Pointer(mem, node + 3) else Pointer(mem, node + 1);
      sub := if bit != 0 then sub.right else sub.left;
    }
    r := Found(next);
  }

  lemma DecodeStep(t: Tree, bits: seq<bool>, at: nat)
    requires at <= |bits| && Decode(t, bits[at..]).Symbol?
    ensures t.Leaf? ==> Decode(t, bits[at..]) == Symbol(t.symbol, bits[at..])
    ensures t.Node? ==> at < |bits|
    ensures t.Node? ==> Decode(if bits[at] then t.right else t.left, bits[at + 1..]) == Decode(t, bits[at..])
  {
    if t.Node? {
      assert bits[at..][1..] == bits[at + 1..];
    }
  }

  /** Reads one symbol through a bit pointer, which moves past its code. */
  method DecodeAt(mem: seq<Byte>, ghost t: Tree, memory: Memory, p: BitPtr) returns (symbol: Byte, q: BitPtr)
    requires t.Node? && Represents(mem, SYMBOL_BOUND, t)
    requires p.Valid() && p.Position() <= 8 * |memory.bytes|
    requires Decode(t, Bits(memory.bytes)[p.Position()..]).Symbol?
    ensures q.Valid() && q.Position() <= 8 * |memory.bytes|
    ensures Decode(t, Bits(memory.bytes)[p.Position()..]) == Symbol(symbol, Bits(memory.bytes)[q.Position()..])
  {
    hide Bits, Next, Decode;
    var next: nat := SYMBOL_BOUND;
    q := p;
    ghost var sub, bits := t, Bits(memory.bytes);
    ghost var goal := Decode(t, bits[p.Position()..]);
    while next >= SYMBOL_BOUND
      invariant q.Valid() && q.Position() <= |bits| && Represents(mem, next, sub)
      invariant Decode(sub, bits[q.Position()..]) == goal
      decreases sub
    {
      DecodeStep(sub, bits, q.Position());
      var bit := memory.Get(q);
      q := Next(q);
      var node := next - SYMBOL_BOUND;
      next := if bit then Pointer(mem, node + 3) else Pointer(mem, node + 1);
      sub := if bit then sub.right else sub.left;
    }
    DecodeStep(sub, bits, q.Position());
    symbol := next;
  }

  // ---- Words ----

  ghost function WordCode(t: Tree, w: Word): seq<bool> {
    if w == [] then [] else Code(t, w[0]) + WordCode(t, w[1..])
  }

  lemma {:induction false} WordCodeConcat(t: Tree, u: Word, v: Word)
    ensures WordCode(t, u + v) == WordCode(t, u) + WordCode(t, v)
  {
    if u == [] {
      assert u + v == v;
    } else {
      assert (u + v)[1..] == u[1..] + v;
      WordCodeConcat(t, u[1..], v);
    }
  }

  /** The code of a word is its symbols' codes, one after the other. */
  lemma WordCodeSnoc(t: Tree, w: Word, symbol: Byte)
    ensures WordCode(t, []) == []
    ensures WordCode(t, w + [symbol]) == WordCode(t, w) + Code(t, symbol)
  {
    WordCodeConcat(t, w, [symbol]);
    assert WordCode(t, [symbol]) == Code(t, symbol) + WordCode(t, []);
  }

  ghost predicate Spells(t: Tree, w: Word) {
    forall i :: 0 <= i < |w| ==> w[i] in Leaves(t)
  }

  /** Lexicographic order, shorter first. */
  ghost predicate BitsLess(a: seq<bool>, b: seq<bool>) {
    BranchesBefore(a, b) || (a <= b && a != b)
  }

  /** Lexicographic order of words by the tree's symbol order. */
  ghost predicate SymbolsLess(u: Word, v: Word) {
    v != [] && (u == [] || Signed(u[0]) < Signed(v[0]) || (u[0] == v[0] && SymbolsLess(u[1..], v[1..])))
  }

  lemma {:induction false} SymbolsLessTotal(u: Word, v: Word)
    ensures u == v || SymbolsLess(u, v) || SymbolsLess(v, u)
  {
    if u != [] && v != [] && u[0] == v[0] {
      SymbolsLessTotal(u[1..], v[1..]);
      assert u == [u[0]] + u[1..] && v == [v[0]] + v[1..];
    }
  }

  /** The first difference decides, and a word comes behind its proper prefixes. */
  lemma {:induction false} FirstDifference(u: Word, v: Word) returns (i: nat)
    requires SymbolsLess(u, v)
    ensures i < |v| && i <= |u| && u[..i] == v[..i] && (i == |u| || Signed(u[i]) < Signed(v[i]))
  {
    if u == [] || Signed(u[0]) < Signed(v[0]) {
      i := 0;
    } else {
      var j := FirstDifference(u[1..], v[1..]);
      i := j + 1;
      assert u[..i] == [u[0]] + u[1..][..j] && v[..i] == [v[0]] + v[1..][..j];
    }
  }

  lemma {:induction false} LessAtDifference(u: Word, v: Word, i: nat)
    requires i < |v| && i <= |u| && u[..i] == v[..i] && (i == |u| || Signed(u[i]) < Signed(v[i]))
    ensures SymbolsLess(u, v)
  {
    if i != 0 {
      assert u[0] == u[..i][0] && v[0] == v[..i][0];
      assert u[1..][..i - 1] == u[..i][1..] && v[1..][..i - 1] == v[..i][1..];
      LessAtDifference(u[1..], v[1..], i - 1);
    }
  }

  lemma BranchesAppend(a: seq<bool>, b: seq<bool>, c: seq<bool>, d: seq<bool>)
    requires BranchesBefore(a, b)
    ensures BranchesBefore(a + c, b + d)
  {
    var i :| BranchAt(a, b, i);
    assert BranchAt(a + c, b + d, i);
  }

  lemma LessUnder(p: seq<bool>, a: seq<bool>, b: seq<bool>)
    requires BitsLess(a, b)
    ensures BitsLess(p + a, p + b)
  {
    if BranchesBefore(a, b) {
      BranchesUnder(p, a, b);
    } else {
      assert p + b == (p + a) + b[|a|..];
    }
  }

  lemma {:induction false} CodeNotEmpty(t: Tree, symbol: Byte)
    requires t.Node?
    ensures Code(t, symbol) != []
  {
  }

  lemma {:induction false} WordCodeForward(t: Tree, u: Word, v: Word)
    requires t.Node? && Ordered(t) && Spells(t, u) && Spells(t, v) && SymbolsLess(u, v)
    ensures BitsLess(WordCode(t, u), WordCode(t, v))
  {
    if u == [] {
      CodeNotEmpty(t, v[0]);
    } else if Signed(u[0]) < Signed(v[0]) {
      CodeKeepsOrder(t, u[0], v[0]);
      BranchesAppend(Code(t, u[0]), Code(t, v[0]), WordCode(t, u[1..]), WordCode(t, v[1..]));
    } else {
      WordCodeForward(t, u[1..], v[1..]);
      LessUnder(Code(t, u[0]), WordCode(t, u[1..]), WordCode(t, v[1..]));
    }
  }

  lemma BitsLessAsymmetric(a: seq<bool>, b: seq<bool>)
    requires BitsLess(a, b)
    ensures !BitsLess(b, a) && a != b
  {
  }

  /** Comparing coded words bit by bit is comparing the words by the tree's symbol order. */
  lemma WordCodeKeepsOrder(t: Tree, u: Word, v: Word)
    requires t.Node? && Ordered(t) && Spells(t, u) && Spells(t, v)
    ensures SymbolsLess(u, v) <==> BitsLess(WordCode(t, u), WordCode(t, v))
  {
    SymbolsLessTotal(u, v);
    if SymbolsLess(u, v) {
      WordCodeForward(t, u, v);
    } else if u != v {
      WordCodeForward(t, v, u);
      BitsLessAsymmetric(WordCode(t, v), WordCode(t, u));
    } else if BitsLess(WordCode(t, u), WordCode(t, v)) {
      BitsLessAsymmetric(WordCode(t, u), WordCode(t, v));
    }
  }
}
