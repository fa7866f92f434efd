/**
 Front coding (`irk::prefix_codec`): a word is stored as the length of the prefix it
 shares with the word before it and the length of the rest, both in unary, followed by the
 coded rest.
 */
module FrontCoding {
  import opened BitMemory
  import opened BitStream
  import opened AlphabeticTree

  function Ones(n: nat): seq<bool> {
    seq(n, _ => true)
  }

  /** `n` ones and a zero. */
  function Unary(n: nat): (r: seq<bool>)
    ensures |r| == n + 1 && !r[n]
    ensures forall i :: 0 <= i < n ==> r[i]
  {
    Ones(n) + [false]
  }

  function CommonPrefix(u: Word, v: Word): (p: nat)
    ensures p <= |u| && p <= |v|
    ensures u[..p] == v[..p]
    ensures p < |u| && p < |v| ==> u[p] != v[p]
  {
    if u == [] || v == [] || u[0] != v[0] then 0
    else
      var p := CommonPrefix(u[1..], v[1..]);
      assert u[..p + 1] == [u[0]] + u[1..][..p] && v[..p + 1] == [v[0]] + v[1..][..p];
      1 + p
  }

  lemma {:induction false} CommonPrefixUnique(u: Word, v: Word, p: nat)
    requires p <= |u| && p <= |v| && u[..p] == v[..p]
    requires p < |u| && p < |v| ==> u[p] != v[p]
    ensures CommonPrefix(u, v) == p
    decreases p
  {
    if 0 < p {
      assert u[..p][0] == v[..p][0];
      assert u[1..][..p - 1] == u[..p][1..] && v[1..][..p - 1] == v[..p][1..];
      CommonPrefixUnique(u[1..], v[1..], p - 1);
    }
  }

  ghost function FrontCode(t: Tree, prev: Word, v: Word): seq<bool> {
    var p := CommonPrefix(prev, v);
    Unary(p) + Unary(|v| - p) + WordCode(t, v[p..])
  }

  /** The front code gives the longest shared prefix in full. */
  lemma FrontCodeIs(t: Tree, prev: Word, v: Word, p: nat)
    requires p <= |prev| && p <= |v| && prev[..p] == v[..p]
    requires p < |prev| && p < |v| ==> prev[p] != v[p]
    ensures FrontCode(t, prev, v) == Unary(p) + Unary(|v| - p) + WordCode(t, v[p..])
  {
    CommonPrefixUnique(prev, v, p);
  }

  /** A run of words, each coded against the one before it. */
  ghost function BlockCode(t: Tree, prev: Word, vs: seq<Word>): seq<bool>
    decreases |vs|
  {
    if vs == [] then [] else FrontCode(t, prev, vs[0]) + BlockCode(t, vs[0], vs[1..])
  }

  lemma OneWordCode(t: Tree, prev: Word, v: Word)
    ensures BlockCode(t, prev, [v]) == FrontCode(t, prev, v)
  {
    hide FrontCode;
    assert [v][1..] == [] && BlockCode(t, v, []) == [];
  }

  function LastOf(prev: Word, vs: seq<Word>): Word {
    if vs == [] then prev else vs[|vs| - 1]
  }

  lemma Regroup<T>(a: seq<T>, b: seq<T>, c: seq<T>)
    ensures (a + b) + c == a + (b + c)
  {
  }

  lemma {:induction false} BlockCodeSnoc(t: Tree, prev: Word, vs: seq<Word>, v: Word)
    ensures BlockCode(t, prev, vs + [v]) == BlockCode(t, prev, vs) + FrontCode(t, LastOf(prev, vs), v)
    decreases |vs|
  {
    hide FrontCode;
    if vs == [] {
      assert [] + [v] == [v] && [v][1..] == [];
      assert BlockCode(t, v, []) == [] && FrontCode(t, prev, v) + [] == FrontCode(t, prev, v);
    } else {
      assert (vs + [v])[1..] == vs[1..] + [v];
      BlockCodeSnoc(t, vs[0], vs[1..], v);
      Regroup(FrontCode(t, prev, vs[0]), BlockCode(t, vs[0], vs[1..]), FrontCode(t, LastOf(prev, vs), v));
    }
  }

  // ---- Decoding ----

  /** The number of leading ones, and what follows the zero after them (if there is one). */
  ghost function UnaryOf(bits: seq<bool>): (nat, seq<bool>) {
    if bits == [] then (0, [])
    else if !bits[0] then (0, bits[1..])
    else (1 + UnaryOf(bits[1..]).0, UnaryOf(bits[1..]).1)
  }

  lemma {:induction false} UnaryInverts(n: nat, rest: seq<bool>)
    ensures UnaryOf(Unary(n) + rest) == (n, rest)
  {
    var bits := Unary(n) + rest;
    if n == 0 {
      assert bits == [false] + rest;
    } else {
      UnaryInverts(n - 1, rest);
      assert bits[1..] == Unary(n - 1) + rest;
    }
  }

  datatype DecodedWord = Broken | Got(word: Word, rest: seq<bool>)

  ghost function WordOf(t: Tree, n: nat, bits: seq<bool>): DecodedWord {
    if n == 0 then Got([], bits)
    else match Decode(t, bits)
      case Ended => Broken
      case Symbol(s, rest) =>
        match WordOf(t, n - 1, rest)
        case Broken => Broken
        case Got(w, rest') => Got([s] + w, rest')
  }

  lemma {:induction false} WordInverts(t: Tree, w: Word, rest: seq<bool>)
    requires Ordered(t) && Spells(t, w)
    ensures WordOf(t, |w|, WordCode(t, w) + rest) == Got(w, rest)
  {
    hide Ordered, Leaves, Code, Decode;
    if w == [] {
      assert WordCode(t, w) + rest == rest;
    } else {
      var tail := WordCode(t, w[1..]);
      DecodeInvertsCode(t, w[0], tail + rest);
      Regroup(Code(t, w[0]), tail, rest);
      WordInverts(t, w[1..], rest);
      assert w == [w[0]] + w[1..];
    }
  }

  /** What is read as a word is spelled by the tree, and the bits read are its code. */
  lemma {:induction false} WordOfIsSound(t: Tree, n: nat, bits: seq<bool>)
    requires Ordered(t) && WordOf(t, n, bits).Got?
    ensures var r := WordOf(t, n, bits); |r.word| == n && Spells(t, r.word) && bits == WordCode(t, r.word) + r.rest
  {
    hide Ordered, Leaves, Code, Decode;
    if n != 0 {
      var first := Decode(t, bits);
      CodeInvertsDecode(t, bits);
      WordOfIsSound(t, n - 1, first.rest);
      var tail := WordOf(t, n - 1, first.rest);
      var word := WordOf(t, n, bits).word;
      assert word[1..] == tail.word;
      Regroup(Code(t, first.value), WordCode(t, tail.word), tail.rest);
    }
  }

  /** What decoding does with any bits: the shared prefix is cut off at the previous word. */
  ghost function FrontOf(t: Tree, prev: Word, bits: seq<bool>): DecodedWord {
    var (prefix, afterPrefix) := UnaryOf(bits);
    var (suffix, afterSuffix) := UnaryOf(afterPrefix);
    match WordOf(t, suffix, afterSuffix)
    case Broken => Broken
    case Got(w, rest) => Got((if prefix <= |prev| then prev[..prefix] else prev) + w, rest)
  }

  /** Any two numbers and a coded rest are read as some of the previous word and the rest. */
  lemma FrontReads(t: Tree, prev: Word, p: nat, w: Word, rest: seq<bool>)
    requires Ordered(t) && Spells(t, w)
    ensures FrontOf(t, prev, Unary(p) + Unary(|w|) + WordCode(t, w) + rest)
         == Got((if p <= |prev| then prev[..p] else prev) + w, rest)
  {
    hide Unary, WordCode, WordOf, UnaryOf, Ordered, Leaves, Spells;
    var coded := WordCode(t, w) + rest;
    Regroup(Unary(p) + Unary(|w|), WordCode(t, w), rest);
    Regroup(Unary(p), Unary(|w|), coded);
    UnaryInverts(p, Unary(|w|) + coded);
    UnaryInverts(|w|, coded);
    WordInverts(t, w, rest);
  }

  /** Decoding inverts front coding, whatever follows. */
  lemma FrontInverts(t: Tree, prev: Word, v: Word, rest: seq<bool>)
    requires Ordered(t) && Spells(t, v)
    ensures FrontOf(t, prev, FrontCode(t, prev, v) + rest) == Got(v, rest)
  {
    hide Unary, WordCode, FrontOf, Ordered, Leaves, CommonPrefix;
    var p := CommonPrefix(prev, v);
    FrontReads(t, prev, p, v[p..], rest);
    assert prev[..p] + v[p..] == v;
  }

  /** Past the last word only zeros follow, which decode to the empty word forever. */
  lemma ZerosDecodeToEmpty(t: Tree, prev: Word, n: nat)
    ensures FrontOf(t, prev, Zeros(n)) == Got([], Zeros(if n < 2 then 0 else n - 2))
  {
    if 1 <= n {
      assert Zeros(n)[1..] == Zeros(n - 1);
    }
    if 2 <= n {
      assert Zeros(n - 1)[1..] == Zeros(n - 2);
    }
    assert prev[..0] + [] == [];
  }

  class PrefixCodec {
    const mem: seq<Byte>
    ghost const tree: Tree
    var prev: Word

    ghost predicate Valid() {
      tree.Node? && Ordered(tree) && Represents(mem, SYMBOL_BOUND, tree)
    }

    constructor (mem: seq<Byte>, ghost tree: Tree)
      requires tree.Node? && Ordered(tree) && Represents(mem, SYMBOL_BOUND, tree)
      ensures Valid() && prev == [] && this.mem == mem && this.tree == tree
    {
      this.mem, this.tree, prev := mem, tree, [];
    }

    method Reset()
      modifies this
      ensures prev == []
    {
      prev := [];
    }

    method EncodeUnary(n: nat, sink: OutputBitStream)
      requires sink.Valid()
      modifies sink
      ensures sink.Valid() && sink.written == old(sink.written) + Unary(n)
      ensures old(sink.out) <= sink.out
    {
      for i := 0 to n
        invariant sink.Valid() && old(sink.out) <= sink.out
        invariant sink.written == old(sink.written) + Ones(i)
      {
        assert Ones(i + 1) == Ones(i) + [true];
        sink.Write(true);
      }
      sink.Write(false);
    }

    /** `hutucker_codec::encode` to a bit stream */
    method EncodeWord(w: Word, sink: OutputBitStream)
      requires Valid() && sink.Valid()
      modifies sink
      ensures sink.Valid() && sink.written == old(sink.written) + WordCode(tree, w)
      ensures old(sink.out) <= sink.out
    {
      hide sink.Valid, Code, Represents, Ordered;
      for i := 0 to |w|
        invariant sink.Valid() && old(sink.out) <= sink.out
        invariant sink.written + WordCode(tree, w[i..]) == old(sink.written) + WordCode(tree, w)
      {
        assert w[i..][1..] == w[i + 1..];
        assert sink.written + WordCode(tree, w[i..])
            == sink.written + Code(tree, w[i]) + WordCode(tree, w[i + 1..]);
        EncodeTo(mem, tree, w[i], sink);
      }
      assert sink.written + [] == sink.written;
    }

    method Encode(value: Word, sink: OutputBitStream)
      requires Valid() && sink.Valid()
      modifies this, sink
      ensures sink.Valid() && prev == value
      ensures sink.written == old(sink.written) + FrontCode(tree, old(prev), value)
      ensures old(sink.out) <= sink.out
    {
      hide sink.Valid, WordCode, Unary, CommonPrefix, Represents, Ordered;
      var pos := 0;
      while pos < |prev| && pos < |value| && prev[pos] == value[pos]
        invariant pos <= |prev| && pos <= |value| && prev[..pos] == value[..pos]
      {
        pos := pos + 1;
      }
      CommonPrefixUnique(prev, value, pos);
      EncodeUnary(pos, sink);
      EncodeUnary(|value| - pos, sink);
      EncodeWord(value[pos..], sink);
      Regroup(old(sink.written), Unary(pos), Unary(|value| - pos));
      Regroup(old(sink.written), Unary(pos) + Unary(|value| - pos), WordCode(tree, value[pos..]));
      prev := value;
    }

    method DecodeUnary(source: InputBitStream) returns (value: nat)
      requires source.Valid()
      modifies source
      ensures source.Valid() && (value, source.Rest()) == UnaryOf(old(source.Rest()))
    {
      hide source.Valid, InputBitStream.Rest;
      value := 0;
      var bit := source.Read();
      while bit > 0
        invariant source.Valid()
        invariant bit > 0 ==>
          UnaryOf(old(source.Rest())) == (value + 1 + UnaryOf(source.Rest()).0, UnaryOf(source.Rest()).1)
        invariant bit <= 0 ==> UnaryOf(old(source.Rest())) == (value, source.Rest())
        decreases |source.Rest()|, bit
      {
        value := value + 1;
        bit := source.Read();
      }
    }

    /** `hutucker_codec::decode` of `n` symbols, appended to `head` */
    method DecodeWord(n: nat, head: Word, source: InputBitStream) returns (ok: bool, value: Word)
      requires Valid() && source.Valid()
      modifies source
      ensures source.Valid()
      ensures match WordOf(tree, n, old(source.Rest()))
              case Broken => !ok
              case Got(w, rest) => ok && value == head + w && source.Rest() == rest
    {
      hide source.Valid, InputBitStream.Rest, AlphabeticTree.Decode, Represents, Ordered;
      value := head;
      for i := 0 to n
        invariant source.Valid()
        invariant match WordOf(tree, n, old(source.Rest()))
                  case Broken => WordOf(tree, n - i, source.Rest()) == Broken
                  case Got(w, rest) =>
                    var r := WordOf(tree, n - i, source.Rest());
                    r.Got? && value + r.word == head + w && r.rest == rest
      {
        var symbol := DecodeFrom(mem, tree, source);
        if symbol == EndOfStream {
          return false, value;
        }
        value := value + [symbol.symbol];
      }
      ok := true;
    }

    /** Decodes one word; the program throws when the stream ends inside its symbols. */
    method Decode(source: InputBitStream) returns (ok: bool, value: Word)
      requires Valid() && source.Valid()
      modifies this, source
      ensures source.Valid()
      ensures match FrontOf(tree, old(prev), old(source.Rest()))
              case Broken => !ok
              case Got(w, rest) => ok && value == w && source.Rest() == rest && prev == w
    {
      hide source.Valid, InputBitStream.Rest, WordOf, UnaryOf;
      var prefix := DecodeUnary(source);
      var suffix := DecodeUnary(source);
      ok, value := DecodeWord(suffix, if prefix <= |prev| then prev[..prefix] else prev, source);
      if ok {
        prev := value;
      }
    }
  }

  /** A word through a stream: its codes take whole bytes, and reading as many symbols gives
      it back. */
  method ThroughStream(codec: PrefixCodec, w: Word) returns (bytes: seq<bv8>, back: Word)
    requires codec.Valid() && Spells(codec.tree, w)
    ensures |bytes| == (|WordCode(codec.tree, w)| + 7) / 8 && back == w
    ensures WordCode(codec.tree, w) <= Bits(bytes) && !(true in Bits(bytes)[|WordCode(codec.tree, w)|..])
  {
    hide OutputBitStream.Valid, InputBitStream.Valid, Ordered, Represents, Spells, WordCode, WordOf, Bits;
    var sink := new OutputBitStream();
    codec.EncodeWord(w, sink);
    ghost var code := sink.written;
    assert code == WordCode(codec.tree, w);
    sink.Flush();
    bytes := sink.out;
    var source := new InputBitStream(bytes);
    WordInverts(codec.tree, w, Zeros(Padding(|code|)));
    var ok;
    ok, back := codec.DecodeWord(|w|, [], source);
    assert [] + w == w;
  }
}
