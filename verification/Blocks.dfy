/**
 One block of the prefix map: a header of two integers (first index and number of words)
 and front-coded words after it, written through a bit pointer into the map's memory and
 read back through another.
 */
module Blocks {
  import opened BitMemory
  import opened BitStream
  import opened AlphabeticTree
  import opened FrontCoding

  /** `sizeof(Index) + sizeof(Counter)` */
  const BLOCK_DATA_OFFSET: nat := 8

  /** The largest code for which the bit pointer surely moves exactly. */
  const MAX_CODE: nat := 248

  lemma SpliceTwice(bits: seq<bool>, at: nat, a: seq<bool>, b: seq<bool>)
    requires at + |a| + |b| <= |bits|
    ensures Splice(Splice(bits, at, a), at + |a|, b) == Splice(bits, at, a + b)
  {
  }

  /** Writing after a stretch of bits keeps the stretch and extends it. */
  lemma SpliceExtends(bits: seq<bool>, from: nat, done: seq<bool>, more: seq<bool>)
    requires from + |done| + |more| <= |bits| && bits[from..from + |done|] == done
    ensures Splice(bits, from + |done|, more)[from..from + |done + more|] == done + more
  {
  }

  lemma SameBits(a: bv8, b: bv8)
    requires forall j :: 0 <= j < 8 ==> Bit(a, j) == Bit(b, j)
    ensures a == b
  {
    assert Bit(a, 0) == Bit(b, 0) && Bit(a, 1) == Bit(b, 1) && Bit(a, 2) == Bit(b, 2) && Bit(a, 3) == Bit(b, 3)
        && Bit(a, 4) == Bit(b, 4) && Bit(a, 5) == Bit(b, 5) && Bit(a, 6) == Bit(b, 6) && Bit(a, 7) == Bit(b, 7);
  }

  /** Bytes that lie wholly outside the written bits are unchanged. */
  lemma SpliceFrame(before: seq<bv8>, after: seq<bv8>, at: nat, source: seq<bool>, i: nat)
    requires |after| == |before| && at + |source| <= 8 * |before| && i < |before|
    requires Bits(after) == Splice(Bits(before), at, source)
    requires 8 * i + 8 <= at || at + |source| <= 8 * i
    ensures after[i] == before[i]
  {
    forall j | 0 <= j < 8 ensures Bit(after[i], j) == Bit(before[i], j) {
      var p := 8 * i + j;
      assert p / 8 == i && p % 8 == j;
      assert Bits(after)[p] == BitAt(after, p) && Bits(before)[p] == BitAt(before, p);
      SpliceElsewhere(Bits(before), at, source, p);
    }
    SameBits(after[i], before[i]);
  }

  /** A word's code is those of its parts. */
  lemma {:induction false} SplitCode(t: Tree, w: Word, p: nat)
    requires p <= |w|
    ensures |WordCode(t, w)| == |WordCode(t, w[..p])| + |WordCode(t, w[p..])|
  {
    if p == 0 {
      assert w[0..] == w && w[..0] == [];
    } else {
      assert w[1..][p - 1..] == w[p..] && w[..p][1..] == w[1..][..p - 1];
      SplitCode(t, w[1..], p - 1);
    }
  }

  // ---- A code behind a lagging pointer ----

  /** Every one is followed by another, `lag` bits on. */
  ghost predicate Repeats(code: seq<bool>, lag: nat) {
    forall j :: 0 <= j < |code| && code[j] ==> j + lag < |code| && code[j + lag]
  }

  lemma {:induction false} RepeatedIsZero(code: seq<bool>, lag: nat, i: nat)
    requires 0 < lag && i < |code| && Repeats(code, lag)
    ensures !code[i]
    decreases |code| - i
  {
    if code[i] {
      RepeatedIsZero(code, lag, i + lag);
    }
  }

  /** A code with a one, written too early, is not found at its place if that was blank. */
  lemma Misplaced(bits: seq<bool>, at: nat, lag: nat, code: seq<bool>, one: nat)
    requires 0 < lag <= at && at + |code| <= |bits| && one < |code| && code[one]
    requires forall i :: at <= i < at + |code| ==> !bits[i]
    ensures Splice(bits, at - lag, code)[at..at + |code|] != code
  {
    var after := Splice(bits, at - lag, code);
    if after[at..at + |code|] == code {
      forall j | 0 <= j < |code| && code[j] ensures j + lag < |code| && code[j + lag] {
        assert after[at..at + |code|][j] == after[at + j];
      }
      RepeatedIsZero(code, lag, one);
    }
  }

  lemma SharedWhole(prev: Word, v: Word)
    ensures CommonPrefix(prev, v) == |v| ==> v <= prev
  {
    assert v[..|v|] == v;
  }

  /** The code of a word that is no prefix of the word before it holds a one. */
  lemma NewWordHasOne(t: Tree, prev: Word, v: Word)
    requires !(v <= prev)
    ensures var one := CommonPrefix(prev, v) + 1; one < |FrontCode(t, prev, v)| && FrontCode(t, prev, v)[one]
  {
    hide WordCode;
    SharedWhole(prev, v);
  }

  /** Whatever the tree and the words: behind a pointer that lags, the next word's code does
      not end up where the words of the block continue. */
  lemma CodeMisplaced(bits: seq<bool>, at: nat, lag: nat, t: Tree, prev: Word, v: Word)
    requires 0 < lag <= at && at + |FrontCode(t, prev, v)| <= |bits| && !(v <= prev)
    requires forall i :: at <= i < at + |FrontCode(t, prev, v)| ==> !bits[i]
    ensures var code := FrontCode(t, prev, v); Splice(bits, at - lag, code)[at..at + |code|] != code
  {
    hide FrontCode, CommonPrefix, Splice;
    NewWordHasOne(t, prev, v);
    Misplaced(bits, at, lag, FrontCode(t, prev, v), CommonPrefix(prev, v) + 1);
  }

  /** Adding `n` to a bit pointer at this position moves it by `n`. */
  predicate MovesExactly(at: nat, n: nat) {
    at % 8 + n <= 255
  }

  lemma MovesAlike(begin: nat, at: nat, n: nat)
    ensures MovesExactly(8 * begin + at, n) <==> MovesExactly(at, n)
  {
    assert (8 * begin + at) % 8 == at % 8;
  }

  /** A word's code behind `prev`, written at bit `pos`, is short enough for the bit pointer:
      the copied part ends within 255 bits of the byte it starts in. */
  ghost predicate KeptUp(t: Tree, prev: Word, pos: nat, w: Word) {
    MovesExactly(pos + |w| + 2, |WordCode(t, w[CommonPrefix(prev, w)..])|)
  }

  /** Only `before` and `after` differ, and only inside a range of bytes. */
  ghost predicate SameOutside(before: seq<bv8>, after: seq<bv8>, from: nat, to: nat) {
    && |before| == |after|
    && forall i :: 0 <= i < |before| && (i < from || to <= i) ==> after[i] == before[i]
  }

  /** Where a block's content ends, in bits. */
  function EndOf(begin: nat, content: seq<bool>): nat {
    8 * begin + 8 * BLOCK_DATA_OFFSET + |content|
  }

  /** The header's first index and the coded words behind the header are in memory. */
  ghost predicate HoldsContent(bytes: seq<bv8>, begin: nat, firstIndex: nat, content: seq<bool>) {
    var at := 8 * begin + 8 * BLOCK_DATA_OFFSET;
    && begin + BLOCK_DATA_OFFSET <= |bytes| && at + |content| <= 8 * |bytes|
    && IntAt(bytes, begin) == firstIndex
    && Bits(bytes)[at..at + |content|] == content
  }

  /** Nothing is written yet. */
  ghost predicate Blank(bytes: seq<bv8>, from: nat, to: nat) {
    to <= 8 * |bytes| && forall p :: from <= p < to ==> !Bits(bytes)[p]
  }

  lemma SpliceSameOutside(before: seq<bv8>, after: seq<bv8>, at: nat, source: seq<bool>, from: nat, to: nat)
    requires |after| == |before| && at + |source| <= 8 * |before|
    requires Bits(after) == Splice(Bits(before), at, source)
    requires 8 * from <= at && at + |source| <= 8 * to
    ensures SameOutside(before, after, from, to)
  {
    forall i | 0 <= i < |before| && (i < from || to <= i) ensures after[i] == before[i] {
      SpliceFrame(before, after, at, source, i);
    }
  }

  /** Appending a word's code to a block keeps the block and adds the word. */
  lemma AppendedContent(before: seq<bv8>, after: seq<bv8>, begin: nat, firstIndex: nat, content: seq<bool>,
                        code: seq<bool>)
    requires HoldsContent(before, begin, firstIndex, content) && HoldsContent(after, begin, firstIndex, [])
    requires |after| == |before| && EndOf(begin, content) + |code| <= 8 * |before|
    requires Bits(after) == Splice(Bits(before), EndOf(begin, content), code)
    ensures HoldsContent(after, begin, firstIndex, content + code)
  {
    hide Bits, Splice, IntAt;
    SpliceExtends(Bits(before), 8 * begin + 8 * BLOCK_DATA_OFFSET, content, code);
  }

  lemma SecondPart(bits: seq<bool>, at: nat, a: seq<bool>, b: seq<bool>)
    requires at + |a| + |b| <= |bits|
    ensures bits[at..at + |a + b|] == a + b ==> bits[at + |a|..at + |a| + |b|] == b
  {
    assert bits[at..at + |a + b|][|a|..] == bits[at + |a|..at + |a| + |b|];
  }

  /** A word's code written before the end of the content is not found behind it. */
  lemma MisplacedContent(before: seq<bv8>, after: seq<bv8>, begin: nat, firstIndex: nat, content: seq<bool>, at: nat,
                         t: Tree, prev: Word, v: Word)
    requires at < EndOf(begin, content)
    requires Blank(before, EndOf(begin, content), EndOf(begin, content) + |FrontCode(t, prev, v)|)
    requires |after| == |before| && Bits(after) == Splice(Bits(before), at, FrontCode(t, prev, v)) && !(v <= prev)
    ensures !HoldsContent(after, begin, firstIndex, content + FrontCode(t, prev, v))
  {
    hide Bits, Splice, IntAt, FrontCode;
    var start, end, code := 8 * begin + 8 * BLOCK_DATA_OFFSET, EndOf(begin, content), FrontCode(t, prev, v);
    CodeMisplaced(Bits(before), end, end - at, t, prev, v);
    SecondPart(Bits(after), start, content, code);
  }

  lemma BlankPart(bytes: seq<bv8>, from: nat, to: nat, higher: nat)
    requires Blank(bytes, from, higher) && to <= higher
    ensures Blank(bytes, from, to)
  {
  }

  lemma SameHeader(before: seq<bv8>, after: seq<bv8>, begin: nat, firstIndex: nat, to: nat)
    requires HoldsContent(before, begin, firstIndex, []) && SameOutside(before, after, begin + BLOCK_DATA_OFFSET, to)
    ensures HoldsContent(after, begin, firstIndex, [])
  {
    hide ByteValue, Bits;
  }

  lemma StillBlank(before: seq<bv8>, after: seq<bv8>, at: nat, code: seq<bool>, from: nat, to: nat)
    requires Blank(before, from, to) && |after| == |before| && at + |code| <= 8 * |before|
    requires Bits(after) == Splice(Bits(before), at, code)
    ensures Blank(after, if from < at + |code| then at + |code| else from, to)
  {
    hide Bits, Splice;
    forall p | at + |code| <= p && from <= p < to ensures !Bits(after)[p] {
      SpliceElsewhere(Bits(before), at, code, p);
    }
  }

  /** Bits written between header and end of a block leave the header and what is outside. */
  lemma WrittenInside(before: seq<bv8>, after: seq<bv8>, begin: nat, size: nat, firstIndex: nat, at: nat, end: nat,
                      code: seq<bool>)
    requires HoldsContent(before, begin, firstIndex, []) && |after| == |before| && begin + size <= |before|
    requires 8 * begin + 8 * BLOCK_DATA_OFFSET <= at <= end && end + |code| <= 8 * (begin + size)
    requires Blank(before, end, 8 * (begin + size)) && Bits(after) == Splice(Bits(before), at, code)
    ensures HoldsContent(after, begin, firstIndex, []) && Blank(after, end + |code|, 8 * (begin + size))
    ensures SameOutside(before, after, begin + BLOCK_DATA_OFFSET, begin + size)
  {
    hide Bits, Splice, IntAt;
    SpliceSameOutside(before, after, at, code, begin + BLOCK_DATA_OFFSET, begin + size);
    hide HoldsContent, SameOutside;
    SameHeader(before, after, begin, firstIndex, begin + size);
    StillBlank(before, after, at, code, end, 8 * (begin + size));
  }

  /** A word's code written at or before the end of a block's content: the block holds the word
      as well if and only if the code was written at the end. */
  lemma CodeWritten(before: seq<bv8>, after: seq<bv8>, begin: nat, size: nat, firstIndex: nat, content: seq<bool>,
                    at: nat, t: Tree, prev: Word, v: Word)
    requires HoldsContent(before, begin, firstIndex, []) && |after| == |before| && begin + size <= |before|
    requires 8 * begin + 8 * BLOCK_DATA_OFFSET <= at <= EndOf(begin, content)
    requires EndOf(begin, content) + |FrontCode(t, prev, v)| <= 8 * (begin + size)
    requires Blank(before, EndOf(begin, content), 8 * (begin + size))
    requires at == EndOf(begin, content) ==> HoldsContent(before, begin, firstIndex, content)
    requires Bits(after) == Splice(Bits(before), at, FrontCode(t, prev, v))
    ensures HoldsContent(after, begin, firstIndex, [])
    ensures SameOutside(before, after, begin + BLOCK_DATA_OFFSET, begin + size)
    ensures Blank(after, EndOf(begin, content + FrontCode(t, prev, v)), 8 * (begin + size))
    ensures at == EndOf(begin, content) || !(v <= prev) ==>
      (HoldsContent(after, begin, firstIndex, content + FrontCode(t, prev, v)) <==> at == EndOf(begin, content))
  {
    hide Bits, Splice, HoldsContent, FrontCode, Blank, SameOutside;
    var end, code := EndOf(begin, content), FrontCode(t, prev, v);
    WrittenInside(before, after, begin, size, firstIndex, at, end, code);
    if at == end {
      AppendedContent(before, after, begin, firstIndex, content, code);
    } else if !(v <= prev) {
      BlankPart(before, end, end + |code|, 8 * (begin + size));
      MisplacedContent(before, after, begin, firstIndex, content, at, t, prev, v);
    }
  }

  lemma SameOutsideRefl(bytes: seq<bv8>, from: nat, to: nat)
    ensures SameOutside(bytes, bytes, from, to)
  {
  }

  lemma SameInt(bytes: seq<bv8>, at: nat, four: seq<bv8>)
    requires |four| == 4 && at + 4 <= |bytes| && bytes[at..at + 4] == four
    ensures IntAt(bytes, at) == IntAt(four, 0)
  {
    hide ByteValue;
    var b := bytes[at..at + 4];
    assert b[0] == bytes[at] && b[1] == bytes[at + 1] && b[2] == bytes[at + 2] && b[3] == bytes[at + 3];
  }

  lemma WrittenInt(bytes: seq<bv8>, at: nat, v: nat)
    requires at + 4 <= |bytes| && bytes[at..at + 4] == IntBytes(v) && v < 0x8000_0000
    ensures IntAt(bytes, at) == v
  {
    hide IntAt, IntBytes;
    IntRoundTrip(v);
    SameInt(bytes, at, IntBytes(v));
  }

  lemma HeaderWritten(before: seq<bv8>, after: seq<bv8>, begin: nat, v: nat)
    requires begin + BLOCK_DATA_OFFSET <= |before| && v < 0x8000_0000
    requires after == before[..begin] + IntBytes(v) + before[begin + 4..]
    ensures HoldsContent(after, begin, v, [])
    ensures SameOutside(before, after, begin, begin + BLOCK_DATA_OFFSET)
  {
    hide IntBytes, IntAt;
    assert after[begin..begin + 4] == IntBytes(v);
    WrittenInt(after, begin, v);
  }

  lemma SameTail(before: seq<bv8>, after: seq<bv8>, from: nat)
    requires |after| == |before| && from <= |before| && after[from..] == before[from..]
    ensures Bits(after)[8 * from..] == Bits(before)[8 * from..]
  {
    BitsSlice(before, from, |before|);
    BitsSlice(after, from, |after|);
    assert before[from..|before|] == before[from..] && after[from..|after|] == after[from..];
  }

  lemma BlankBehind(before: seq<bv8>, after: seq<bv8>, begin: nat, to: nat)
    requires SameOutside(before, after, begin, begin + BLOCK_DATA_OFFSET) && begin + BLOCK_DATA_OFFSET <= |before|
    requires Blank(before, 8 * begin + 8 * BLOCK_DATA_OFFSET, to)
    ensures Blank(after, 8 * begin + 8 * BLOCK_DATA_OFFSET, to)
  {
    hide Bits;
    var from := begin + BLOCK_DATA_OFFSET;
    SameTail(before, after, from);
    forall p | 8 * from <= p < to ensures !Bits(after)[p] {
      assert Bits(after)[p] == Bits(after)[8 * from..][p - 8 * from];
      assert Bits(before)[p] == Bits(before)[8 * from..][p - 8 * from];
    }
  }

  /** Blocks are the same if the first index and all bits behind the header are. */
  lemma SameBlock(before: seq<bv8>, after: seq<bv8>, begin: nat, firstIndex: nat, content: seq<bool>, to: nat)
    requires begin + BLOCK_DATA_OFFSET <= |before| == |after| && IntAt(after, begin) == IntAt(before, begin)
    requires after[begin + BLOCK_DATA_OFFSET..] == before[begin + BLOCK_DATA_OFFSET..]
    ensures HoldsContent(after, begin, firstIndex, content) <==> HoldsContent(before, begin, firstIndex, content)
    ensures Blank(after, EndOf(begin, content), to) <==> Blank(before, EndOf(begin, content), to)
  {
    hide Bits, IntAt;
    SameTail(before, after, begin + BLOCK_DATA_OFFSET);
    var at, a, b := 8 * begin + 8 * BLOCK_DATA_OFFSET, Bits(after), Bits(before);
    if at + |content| <= |a| {
      assert a[at..][..|content|] == a[at..at + |content|] && b[at..][..|content|] == b[at..at + |content|];
    }
    forall p | at <= p < |a| ensures a[p] == b[p] {
      assert a[p] == a[at..][p - at] && b[p] == b[at..][p - at];
    }
  }

  lemma CountWritten(before: seq<bv8>, after: seq<bv8>, begin: nat, v: nat)
    requires begin + BLOCK_DATA_OFFSET <= |before| && v < 0x8000_0000
    requires after == before[..begin + 4] + IntBytes(v) + before[begin + 8..]
    ensures |after| == |before| && IntAt(after, begin) == IntAt(before, begin) && IntAt(after, begin + 4) == v
    ensures after[begin + BLOCK_DATA_OFFSET..] == before[begin + BLOCK_DATA_OFFSET..]
    ensures SameOutside(before, after, begin + 4, begin + BLOCK_DATA_OFFSET)
  {
    hide IntBytes, ByteValue;
    assert after[begin + 4..begin + 8] == IntBytes(v);
    WrittenInt(after, begin + 4, v);
  }

  /** `memcpy` of a count into a block's header */
  method PutCount(memory: Memory, begin: nat, count: nat)
    requires begin + BLOCK_DATA_OFFSET <= |memory.bytes| && count < 0x8000_0000
    modifies memory
    ensures |memory.bytes| == |old(memory.bytes)|
    ensures IntAt(memory.bytes, begin) == IntAt(old(memory.bytes), begin) && IntAt(memory.bytes, begin + 4) == count
    ensures memory.bytes[begin + BLOCK_DATA_OFFSET..] == old(memory.bytes)[begin + BLOCK_DATA_OFFSET..]
    ensures SameOutside(old(memory.bytes), memory.bytes, begin + 4, begin + BLOCK_DATA_OFFSET)
  {
    hide SameOutside, IntBytes, IntAt;
    ghost var before := memory.bytes;
    memory.WriteBytes(begin + 4, IntBytes(count));
    CountWritten(before, memory.bytes, begin, count);
  }

  // ---- What a builder writes ----

  /** The bits behind a block's header, and how far behind it the bit pointer is. */
  datatype Picture = Picture(bits: seq<bool>, at: nat)

  /** One more word behind `prev`. */
  ghost function Sketched(t: Tree, prev: Word, w: Word, d: Picture): (r: Picture)
    ensures |r.bits| == |d.bits|
  {
    var code := FrontCode(t, prev, w);
    Picture(if d.at + |code| <= |d.bits| then Splice(d.bits, d.at, code) else d.bits,
            Moved(d.at + |w| + 2, |WordCode(t, w[CommonPrefix(prev, w)..])|))
  }

  lemma SketchedOnce(t: Tree, prev: Word, w: Word, d: Picture)
    requires d.at + |FrontCode(t, prev, w)| <= |d.bits|
    ensures Sketched(t, prev, w, d).bits == Splice(d.bits, d.at, FrontCode(t, prev, w))
    ensures Sketched(t, prev, w, d).at
         == Moved(d.at + |w| + 2, |WordCode(t, w[CommonPrefix(prev, w)..])|)
  {
  }

  /** All words of a block with that much room, whether the bit pointer keeps up or not. */
  ghost function Drawn(t: Tree, ws: seq<Word>, room: nat): (r: Picture)
    ensures |r.bits| == room
    decreases |ws|
  {
    if ws == [] then Picture(Zeros(room), 0)
    else
      var k := |ws| - 1;
      Sketched(t, LastOf([], ws[..k]), ws[k], Drawn(t, ws[..k], room))
  }

  lemma NothingDrawn(t: Tree, room: nat)
    ensures Drawn(t, [], room) == Picture(Zeros(room), 0) && BlockCode(t, [], []) == []
  {
  }

  lemma DrawnSnoc(t: Tree, ws: seq<Word>, w: Word, room: nat)
    ensures Drawn(t, ws + [w], room) == Sketched(t, LastOf([], ws), w, Drawn(t, ws, room))
  {
    assert (ws + [w])[..|ws|] == ws;
  }

  /** The bits behind a block's header. */
  ghost predicate Shows(bytes: seq<bv8>, begin: nat, bits: seq<bool>) {
    EndOf(begin, bits) <= 8 * |bytes| && Bits(bytes)[EndOf(begin, [])..EndOf(begin, bits)] == bits
  }

  lemma BlankShows(bytes: seq<bv8>, begin: nat, room: nat)
    requires Blank(bytes, EndOf(begin, []), EndOf(begin, []) + room)
    ensures Shows(bytes, begin, Zeros(room))
  {
    hide Bits;
  }

  lemma SpliceShows(before: seq<bv8>, after: seq<bv8>, begin: nat, bits: seq<bool>, at: nat, code: seq<bool>)
    requires Shows(before, begin, bits) && |after| == |before| && at + |code| <= |bits|
    requires Bits(after) == Splice(Bits(before), EndOf(begin, []) + at, code)
    ensures Shows(after, begin, Splice(bits, at, code))
  {
    hide Bits;
    var start := EndOf(begin, []);
    var a, b := Bits(before), Bits(after);
    forall i | 0 <= i < |bits| ensures b[start + i] == Splice(bits, at, code)[i] {
      assert a[start..start + |bits|][i] == a[start + i];
    }
  }

  lemma SameShows(before: seq<bv8>, after: seq<bv8>, begin: nat, bits: seq<bool>)
    requires begin + BLOCK_DATA_OFFSET <= |before| == |after|
    requires after[begin + BLOCK_DATA_OFFSET..] == before[begin + BLOCK_DATA_OFFSET..]
    ensures Shows(after, begin, bits) <==> Shows(before, begin, bits)
  {
    hide Bits;
    SameTail(before, after, begin + BLOCK_DATA_OFFSET);
    var at, a, b := EndOf(begin, []), Bits(after), Bits(before);
    if at + |bits| <= |a| {
      assert a[at..][..|bits|] == a[at..at + |bits|] && b[at..][..|bits|] == b[at..at + |bits|];
    }
  }

  /** Written where the picture says, a word's code continues the picture. */
  lemma DrawnNext(before: seq<bv8>, after: seq<bv8>, begin: nat, t: Tree, ws: seq<Word>, w: Word, room: nat)
    requires Shows(before, begin, Drawn(t, ws, room).bits) && |after| == |before|
    requires Drawn(t, ws, room).at + |FrontCode(t, LastOf([], ws), w)| <= room
    requires Bits(after)
          == Splice(Bits(before), EndOf(begin, []) + Drawn(t, ws, room).at, FrontCode(t, LastOf([], ws), w))
    ensures Shows(after, begin, Drawn(t, ws + [w], room).bits)
    ensures EndOf(begin, []) + Drawn(t, ws + [w], room).at
         == Moved(EndOf(begin, []) + Drawn(t, ws, room).at + |w| + 2,
                  |WordCode(t, w[CommonPrefix(LastOf([], ws), w)..])|)
  {
    hide Bits, Splice, Shows, Drawn, Moved, FrontCode, WordCode, CommonPrefix;
    var d, prev := Drawn(t, ws, room), LastOf([], ws);
    SketchedOnce(t, prev, w, d);
    SpliceShows(before, after, begin, d.bits, d.at, FrontCode(t, prev, w));
    MovedBehind(begin + BLOCK_DATA_OFFSET, d.at + |w| + 2, |WordCode(t, w[CommonPrefix(prev, w)..])|);
    DrawnSnoc(t, ws, w, room);
  }

  /** The picture goes on, and the block holds one more word if the code was written at the end. */
  lemma WordWritten(before: seq<bv8>, after: seq<bv8>, begin: nat, size: nat, firstIndex: nat, t: Tree, ws: seq<Word>,
                    w: Word)
    requires BLOCK_DATA_OFFSET <= size && begin + size <= |before| == |after|
    requires HoldsContent(before, begin, firstIndex, [])
    requires var d, end := Drawn(t, ws, 8 * size - 8 * BLOCK_DATA_OFFSET), EndOf(begin, BlockCode(t, [], ws));
      && EndOf(begin, []) + d.at <= end && end + |FrontCode(t, LastOf([], ws), w)| <= 8 * (begin + size)
      && Blank(before, end, 8 * (begin + size)) && Shows(before, begin, d.bits)
      && (EndOf(begin, []) + d.at == end ==> HoldsContent(before, begin, firstIndex, BlockCode(t, [], ws)))
      && Bits(after) == Splice(Bits(before), EndOf(begin, []) + d.at, FrontCode(t, LastOf([], ws), w))
    ensures |BlockCode(t, [], ws + [w])| == |BlockCode(t, [], ws)| + |FrontCode(t, LastOf([], ws), w)|
    ensures HoldsContent(after, begin, firstIndex, [])
    ensures SameOutside(before, after, begin + BLOCK_DATA_OFFSET, begin + size)
    ensures Blank(after, EndOf(begin, BlockCode(t, [], ws + [w])), 8 * (begin + size))
    ensures var d, end := Drawn(t, ws, 8 * size - 8 * BLOCK_DATA_OFFSET), EndOf(begin, BlockCode(t, [], ws));
      EndOf(begin, []) + d.at == end || !(w <= LastOf([], ws)) ==>
        (HoldsContent(after, begin, firstIndex, BlockCode(t, [], ws + [w])) <==> EndOf(begin, []) + d.at == end)
    ensures var d, next := Drawn(t, ws, 8 * size - 8 * BLOCK_DATA_OFFSET),
                           Drawn(t, ws + [w], 8 * size - 8 * BLOCK_DATA_OFFSET);
      && Shows(after, begin, next.bits)
      && EndOf(begin, []) + next.at == Moved(EndOf(begin, []) + d.at + |w| + 2,
                                             |WordCode(t, w[CommonPrefix(LastOf([], ws), w)..])|)
  {
    hide Bits, Splice, Shows, Drawn, Moved, FrontCode, WordCode, CommonPrefix, HoldsContent, Blank, SameOutside,
      BlockCode;
    var room := 8 * size - 8 * BLOCK_DATA_OFFSET;
    CodeWritten(before, after, begin, size, firstIndex, BlockCode(t, [], ws), EndOf(begin, []) + Drawn(t, ws, room).at,
                t, LastOf([], ws), w);
    DrawnNext(before, after, begin, t, ws, w, room);
    BlockCodeSnoc(t, [], ws, w);
  }

  class BlockBuilder {
    const memory: Memory
    const mem: seq<Byte>
    ghost const tree: Tree
    const firstIndex: nat
    var count: nat
    var pos: nat
    var last: Word
    var size: nat
    var begin: nat
    var bitp: BitPtr
    ghost var added: seq<Word>

    /** The front-coded words of this block. */
    ghost function Content(): seq<bool>
      reads this
    {
      BlockCode(tree, [], added)
    }

    /** Where the next code belongs. */
    ghost function End(): nat
      reads this
    {
      EndOf(begin, Content())
    }

    /** The memory holds the words where they belong. */
    ghost predicate Holds()
      reads this, memory
    {
      HoldsContent(memory.bytes, begin, firstIndex, Content())
    }

    /** What was written so far. */
    ghost function Sketch(): Picture
      requires BLOCK_DATA_OFFSET <= size
      reads this
    {
      Drawn(tree, added, 8 * size - 8 * BLOCK_DATA_OFFSET)
    }

    /** Behind the words the block is blank. The bit pointer is not ahead of them; if it does
        not lag either, the words are where they belong. */
    ghost predicate Valid()
      reads this, memory
    {
      && tree.Node? && Ordered(tree) && Represents(mem, SYMBOL_BOUND, tree)
      && BLOCK_DATA_OFFSET <= size && begin + size <= |memory.bytes|
      && count == |added| && last == LastOf([], added)
      && (pos == 8 * BLOCK_DATA_OFFSET + |Content()| || pos == 8 * size)
      && 8 * BLOCK_DATA_OFFSET + |Content()| <= 8 * size
      && bitp.Valid() && begin + BLOCK_DATA_OFFSET <= bitp.block && bitp.Position() <= End()
      && HoldsContent(memory.bytes, begin, firstIndex, []) && Blank(memory.bytes, End(), 8 * (begin + size))
      && (bitp.Position() == End() ==> Holds())
      && bitp.Position() == EndOf(begin, []) + Sketch().at && Shows(memory.bytes, begin, Sketch().bits)
    }

    /** The bit pointer stands where `pos` says. */
    ghost predicate InSync()
      reads this
    {
      bitp.Position() == 8 * begin + pos
    }

    ghost function Needs(value: Word): nat
      reads this
    {
      |FrontCode(tree, last, value)|
    }

    ghost predicate Fits(value: Word)
      reads this
    {
      pos + Needs(value) <= 8 * size
    }

    constructor (memory: Memory, begin: nat, size: nat, firstIndex: nat, mem: seq<Byte>, ghost tree: Tree)
      requires tree.Node? && Ordered(tree) && Represents(mem, SYMBOL_BOUND, tree)
      requires BLOCK_DATA_OFFSET <= size && begin + size <= |memory.bytes| && firstIndex < 0x8000_0000
      requires Blank(memory.bytes, 8 * begin + 8 * BLOCK_DATA_OFFSET, 8 * (begin + size))
      modifies memory
      ensures Valid() && InSync() && Holds() && added == [] && last == [] && pos == 8 * BLOCK_DATA_OFFSET
      ensures this.memory == memory && this.begin == begin && this.size == size && this.firstIndex == firstIndex
      ensures this.mem == mem && this.tree == tree
      ensures SameOutside(old(memory.bytes), memory.bytes, begin, begin + BLOCK_DATA_OFFSET)
    {
      hide Drawn, Shows, BlockCode, Ordered, Represents, SameOutside, HoldsContent, IntBytes, Bits, IntAt, Blank;
      NothingDrawn(tree, 8 * size - 8 * BLOCK_DATA_OFFSET);
      this.memory, this.begin, this.size, this.firstIndex := memory, begin, size, firstIndex;
      this.mem, this.tree := mem, tree;
      count, pos, last, added := 0, 8 * BLOCK_DATA_OFFSET, [], [];
      bitp := BitPtr(begin + BLOCK_DATA_OFFSET, 0);
      new;
      ghost var before := memory.bytes;
      memory.WriteBytes(begin, IntBytes(firstIndex));
      HeaderWritten(before, memory.bytes, begin, firstIndex);
      BlankBehind(before, memory.bytes, begin, 8 * (begin + size));
      BlankShows(memory.bytes, begin, 8 * size - 8 * BLOCK_DATA_OFFSET);
    }

    method EncodeUnary(n: nat)
      requires bitp.Valid() && bitp.Position() + n + 1 <= 8 * |memory.bytes|
      modifies `bitp, `pos, memory
      ensures bitp.Valid() && bitp.Position() == old(bitp.Position()) + n + 1 && pos == old(pos) + n + 1
      ensures |memory.bytes| == |old(memory.bytes)|
      ensures Bits(memory.bytes) == Splice(Bits(old(memory.bytes)), old(bitp.Position()), Unary(n))
    {
      hide Bits, Splice, Next;
      ghost var bits, at := Bits(memory.bytes), bitp.Position();
      SpliceNothing(bits, at);
      assert Unary(n)[..0] == [];
      for i := 0 to n
        invariant bitp.Valid() && bitp.Position() == at + i && pos == old(pos)
        invariant |memory.bytes| == |old(memory.bytes)|
        invariant Bits(memory.bytes) == Splice(bits, at, Unary(n)[..i])
      {
        SpliceSnoc(bits, at, Unary(n), i);
        memory.Set(bitp, true);
        bitp := Next(bitp);
      }
      SpliceSnoc(bits, at, Unary(n), n);
      memory.Set(bitp, false);
      bitp := Next(bitp);
      assert Unary(n)[..n + 1] == Unary(n);
      pos := pos + n + 1;
    }

    /** `hutucker_codec::encode` to a bitset */
    method EncodeWord(w: Word) returns (encoded: seq<bool>)
      requires tree.Node? && Represents(mem, SYMBOL_BOUND, tree)
      ensures encoded == WordCode(tree, w)
    {
      hide Code, Represents;
      encoded := [];
      for i := 0 to |w|
        invariant encoded + WordCode(tree, w[i..]) == WordCode(tree, w)
      {
        assert w[i..][1..] == w[i + 1..];
        Regroup(encoded, Code(tree, w[i]), WordCode(tree, w[i + 1..]));
        encoded := EncodeBits(mem, tree, w[i], encoded);
      }
      assert encoded + [] == encoded;
    }

    /** The prefix the last word shares with the value. The scan runs over the last word; it
        may look at the terminator behind the value, but not beyond. */
    method SharedPrefix(value: Word) returns (p: nat)
      requires !(value + [0] <= last)
      ensures p == CommonPrefix(last, value)
    {
      p := 0;
      while p < |last|
        invariant p <= |last| && p <= |value| && last[..p] == value[..p]
      {
        if p == |value| {
          assert last[..p + 1] == last[..p] + [last[p]];
          assert value + [last[p]] <= last;
        }
        var c := if p < |value| then value[p] else 0;
        if last[p] != c {
          break;
        }
        p := p + 1;
      }
      CommonPrefixUnique(last, value, p);
    }

    method WriteLengths(prefix: nat, suffix: nat)
      requires bitp.Valid() && bitp.Position() + prefix + suffix + 2 <= 8 * |memory.bytes|
      modifies `bitp, `pos, memory
      ensures bitp.Valid() && pos == old(pos) + prefix + suffix + 2
      ensures bitp.Position() == old(bitp.Position()) + prefix + suffix + 2 && old(bitp.block) <= bitp.block
      ensures |memory.bytes| == |old(memory.bytes)|
      ensures Bits(memory.bytes) == Splice(Bits(old(memory.bytes)), old(bitp.Position()), Unary(prefix) + Unary(suffix))
    {
      hide Bits, Splice, Unary;
      ghost var bits, at := Bits(memory.bytes), bitp.Position();
      EncodeUnary(prefix);
      EncodeUnary(suffix);
      SpliceTwice(bits, at, Unary(prefix), Unary(suffix));
    }

    method CopyCode(encoded: seq<bool>)
      requires bitp.Valid() && bitp.Position() + |encoded| <= 8 * |memory.bytes|
      modifies `bitp, `pos, memory
      ensures bitp.Valid() && pos == old(pos) + |encoded| && |memory.bytes| == |old(memory.bytes)|
      ensures Bits(memory.bytes) == Splice(Bits(old(memory.bytes)), old(bitp.Position()), encoded)
      ensures bitp.Position() <= old(bitp.Position()) + |encoded| && old(bitp.block) <= bitp.block
      ensures bitp.Position() == Moved(old(bitp.Position()), |encoded|)
      ensures bitp.Position() == old(bitp.Position()) + |encoded| <==> MovesExactly(old(bitp.Position()), |encoded|)
    {
      memory.CopyBits(bitp, encoded);
      ShiftOf(bitp);
      PlusIsExact(bitp, |encoded|);
      PlusAtMost(bitp, |encoded|);
      PlusMoves(bitp, |encoded|);
      hide BitPtr.Plus, BitPtr.Position, Moved, BitPtr.Valid, Bits, Splice;
      bitp := bitp.Plus(|encoded|);
      pos := pos + |encoded|;
    }

    /** Both lengths and the code, one after the other. */
    method Write(prefix: nat, suffix: nat, encoded: seq<bool>)
      requires bitp.Valid() && bitp.Position() + prefix + suffix + 2 + |encoded| <= 8 * |memory.bytes|
      modifies `bitp, `pos, memory
      ensures bitp.Valid() && pos == old(pos) + prefix + suffix + 2 + |encoded|
      ensures |memory.bytes| == |old(memory.bytes)|
      ensures Bits(memory.bytes)
           == Splice(Bits(old(memory.bytes)), old(bitp.Position()), Unary(prefix) + Unary(suffix) + encoded)
      ensures bitp.Position() <= old(bitp.Position()) + prefix + suffix + 2 + |encoded| && old(bitp.block) <= bitp.block
      ensures bitp.Position() == Moved(old(bitp.Position()) + prefix + suffix + 2, |encoded|)
      ensures bitp.Position() == old(bitp.Position()) + prefix + suffix + 2 + |encoded|
         <==> MovesExactly(old(bitp.Position()) + prefix + suffix + 2, |encoded|)
    {
      hide Bits, Splice, Unary, Moved, MovesExactly, BitPtr.Position, BitPtr.Valid;
      ghost var bits, at := Bits(memory.bytes), bitp.Position();
      WriteLengths(prefix, suffix);
      CopyCode(encoded);
      SpliceTwice(bits, at, Unary(prefix) + Unary(suffix), encoded);
    }

    lemma CodeParts(value: Word, p: nat)
      requires p == CommonPrefix(last, value)
      ensures FrontCode(tree, last, value) == Unary(p) + Unary(|value| - p) + WordCode(tree, value[p..])
      ensures Needs(value) == |value| + 2 + |WordCode(tree, value[p..])|
    {
    }

    method Append(value: Word, p: nat, encoded: seq<bool>)
      requires Valid() && Fits(value) && pos == 8 * BLOCK_DATA_OFFSET + |Content()|
      requires p == CommonPrefix(last, value) && encoded == WordCode(tree, value[p..])
      modifies this, memory
      ensures Valid() && begin == old(begin) && size == old(size)
      ensures added == old(added) + [value] && pos == old(pos) + old(Needs(value))
      ensures SameOutside(old(memory.bytes), memory.bytes, begin + BLOCK_DATA_OFFSET, begin + size)
      ensures old(bitp.Position()) <= 8 * begin + old(pos)
      ensures Bits(memory.bytes)
           == Splice(Bits(old(memory.bytes)), old(bitp.Position()), FrontCode(tree, old(last), value))
      ensures InSync() <==> (old(InSync()) && KeptUp(tree, old(last), old(pos), value))
      ensures old(InSync()) || !(value <= old(last)) ==> (Holds() <==> old(InSync()))
    {
      hide Bits, Splice, Unary, BlockCode, WordCode, Ordered, Represents, CommonPrefix, SameOutside, HoldsContent,
        FrontCode, Blank, Drawn, Shows, Sketched, Moved, BitPtr.Plus, BitPtr.Position, BitPtr.Valid, MovesExactly;
      CodeParts(value, p);
      MovesAlike(begin, pos + |value| + 2, |encoded|);
      ghost var before := memory.bytes;
      Write(p, |value| - p, encoded);
      WordWritten(before, memory.bytes, begin, size, firstIndex, tree, added, value);
      count := count + 1;
      last := value;
      added := added + [value];
    }

    /** Adds a word if it fits, and then writes its code at the bit pointer and nothing else.
        The pointer keeps up exactly when it did before and the copied code ends within 255
        bits of the byte it starts in. Behind a lagging pointer the block loses its words. */
    method Add(value: Word) returns (ok: bool)
      requires Valid() && !(value + [0] <= last)
      modifies this, memory
      ensures Valid() && begin == old(begin) && size == old(size)
      ensures ok <==> old(Fits(value))
      ensures var code := WordCode(tree, value[CommonPrefix(old(last), value)..]);
        && (ok <==> old(pos) + |value| + 2 + |code| <= 8 * size)
        && (ok ==> pos == old(pos) + |value| + 2 + |code|)
        && (ok ==> (InSync() <==> (old(InSync()) && (old(pos) + |value| + 2) % 8 + |code| <= 255)))
      ensures !ok ==> memory.bytes == old(memory.bytes) && added == old(added) && bitp == old(bitp) && pos == old(pos)
      ensures ok ==> added == old(added) + [value] && pos == old(pos) + old(Needs(value))
      ensures SameOutside(old(memory.bytes), memory.bytes, begin + BLOCK_DATA_OFFSET, begin + size)
      ensures ok ==> old(bitp.Position()) <= 8 * begin + old(pos)
      ensures ok ==>
        Bits(memory.bytes) == Splice(Bits(old(memory.bytes)), old(bitp.Position()), FrontCode(tree, old(last), value))
      ensures ok ==> (InSync() <==> (old(InSync()) && KeptUp(tree, old(last), old(pos), value)))
      ensures ok && (old(InSync()) || !(value <= old(last))) ==> (Holds() <==> old(InSync()))
    {
      hide Bits, Splice, BlockCode, WordCode, Ordered, Represents, CommonPrefix, SameOutside, HoldsContent, Blank,
        Drawn, Shows;
      var p := SharedPrefix(value);
      var encoded := EncodeWord(value[p..]);
      CodeParts(value, p);
      if pos + (|value| + 2 + |encoded|) > size * 8 {
        SameOutsideRefl(memory.bytes, begin + BLOCK_DATA_OFFSET, begin + size);
        return false;
      }
      Append(value, p, encoded);
      ok := true;
    }

    method ExpandBy(n: nat)
      requires Valid() && added == [] && pos == 8 * BLOCK_DATA_OFFSET && begin + size + n <= |memory.bytes|
      requires Blank(memory.bytes, End(), 8 * (begin + size + n))
      modifies `size
      ensures Valid() && size == old(size) + n
    {
      hide Bits, Blank, HoldsContent, Ordered, Represents, Shows;
      BlankShows(memory.bytes, begin, 8 * (size + n) - 8 * BLOCK_DATA_OFFSET);
      size := size + n;
    }

    /** Back to the start of the block's data, at the same place of the grown memory. */
    method Reset(newBegin: nat)
      requires Valid() && added == [] && pos == 8 * BLOCK_DATA_OFFSET && newBegin == begin
      modifies `begin, `bitp
      ensures Valid() && InSync() && begin == newBegin
    {
      hide Bits, Blank, HoldsContent, Ordered, Represents, Shows;
      begin := newBegin;
      bitp := BitPtr(begin + BLOCK_DATA_OFFSET, 0);
    }

    method WriteCount()
      requires Valid() && |added| < 0x8000_0000
      modifies memory
      ensures Valid() && IntAt(memory.bytes, begin + 4) == |added| && (Holds() <==> old(Holds()))
      ensures SameOutside(old(memory.bytes), memory.bytes, begin + 4, begin + BLOCK_DATA_OFFSET)
    {
      hide SameOutside, HoldsContent, Ordered, Represents, BlockCode, IntAt, Blank, Drawn, Shows;
      ghost var before := memory.bytes;
      PutCount(memory, begin, count);
      SameBlock(before, memory.bytes, begin, firstIndex, Content(), 8 * (begin + size));
      SameBlock(before, memory.bytes, begin, firstIndex, [], 8 * (begin + size));
      SameShows(before, memory.bytes, begin, Sketch().bits);
    }

    /** No further word fits. */
    method Close()
      requires Valid()
      modifies `pos
      ensures Valid() && pos == 8 * size
      ensures forall v :: !Fits(v)
    {
      hide Bits, Blank, HoldsContent, Ordered, Represents, Shows, Drawn, FrontCode, BlockCode;
      pos := 8 * size;
      forall v: Word ensures !Fits(v) {
        CodeParts(v, CommonPrefix(last, v));
      }
    }
  }

  // ---- Reading ----

  /** `resize` of a string: cut off, or filled up with zero bytes. */
  function Resized(w: Word, n: nat): (r: Word)
    ensures |r| == n
    ensures forall i :: 0 <= i < n ==> r[i] == if i < |w| then w[i] else 0
  {
    if n <= |w| then w[..n] else w + seq(n - |w|, _ => 0)
  }

  /** The ones end: a number in unary can be read. */
  ghost predicate Ends(bits: seq<bool>) {
    false in bits
  }

  /** What reading a word behind `prev` makes of any bits; it is broken if the bits end first. */
  ghost function WordAt(t: Tree, prev: Word, bits: seq<bool>): DecodedWord {
    var (prefix, afterPrefix) := UnaryOf(bits);
    var (suffix, afterSuffix) := UnaryOf(afterPrefix);
    if !Ends(bits) || !Ends(afterPrefix) then Broken
    else match WordOf(t, suffix, afterSuffix)
      case Broken => Broken
      case Got(w, rest) => Got(Resized(prev, prefix) + w, rest)
  }

  /** The first `n` words that can be read, each behind the one before it. */
  ghost function WordsAt(t: Tree, prev: Word, bits: seq<bool>, n: nat): (r: seq<Word>)
    ensures |r| <= n
    decreases n
  {
    if n == 0 then [] else match WordAt(t, prev, bits)
      case Broken => []
      case Got(w, rest) => [w] + WordsAt(t, w, rest, n - 1)
  }

  lemma UnaryEnds(n: nat, rest: seq<bool>)
    ensures Ends(Unary(n) + rest)
  {
    assert !(Unary(n) + rest)[n];
  }

  /** Any two numbers and a coded rest are read as the previous word, resized, and the rest. */
  lemma WordAtReads(t: Tree, prev: Word, p: nat, w: Word, rest: seq<bool>)
    requires Ordered(t) && Spells(t, w)
    ensures WordAt(t, prev, Unary(p) + Unary(|w|) + WordCode(t, w) + rest) == Got(Resized(prev, p) + w, rest)
  {
    hide Unary, Ends, WordCode, WordOf, UnaryOf, Ordered, Leaves, Spells, Resized;
    var coded := WordCode(t, w) + rest;
    Regroup(Unary(p) + Unary(|w|), WordCode(t, w), rest);
    Regroup(Unary(p), Unary(|w|), coded);
    UnaryInverts(p, Unary(|w|) + coded);
    UnaryInverts(|w|, coded);
    UnaryEnds(p, Unary(|w|) + coded);
    UnaryEnds(|w|, coded);
    WordInverts(t, w, rest);
  }

  /** A front-coded word is read back, whatever follows. */
  lemma WordAtInverts(t: Tree, prev: Word, v: Word, rest: seq<bool>)
    requires Ordered(t) && Spells(t, v)
    ensures WordAt(t, prev, FrontCode(t, prev, v) + rest) == Got(v, rest)
  {
    hide Unary, WordAt, WordCode, Ordered, Leaves, CommonPrefix;
    var p := CommonPrefix(prev, v);
    WordAtReads(t, prev, p, v[p..], rest);
    assert Resized(prev, p) + v[p..] == v;
  }

  /** A block's words are read back. */
  lemma {:induction false} WordsAtInverts(t: Tree, prev: Word, vs: seq<Word>, rest: seq<bool>)
    requires Ordered(t) && forall i :: 0 <= i < |vs| ==> Spells(t, vs[i])
    ensures WordsAt(t, prev, BlockCode(t, prev, vs) + rest, |vs|) == vs
    decreases |vs|
  {
    hide Ordered, Spells, FrontCode, WordAt;
    if vs != [] {
      Regroup(FrontCode(t, prev, vs[0]), BlockCode(t, vs[0], vs[1..]), rest);
      WordAtInverts(t, prev, vs[0], BlockCode(t, vs[0], vs[1..]) + rest);
      WordsAtInverts(t, vs[0], vs[1..], rest);
      assert vs == [vs[0]] + vs[1..];
    }
  }

  /** Blank bits read as the empty word. */
  lemma BlankReadsEmpty(t: Tree, prev: Word, bits: seq<bool>)
    requires 2 <= |bits| && !bits[0] && !bits[1]
    ensures WordAt(t, prev, bits) == Got([], bits[2..])
  {
    assert bits[1..][0] == bits[1] && bits[1..][1..] == bits[2..];
    assert Resized(prev, 0) + [] == [];
  }

  /** Where a word's code of at most `lag` bits, written `lag` bits too early, should have been,
      the empty word is read. */
  lemma MisplacedReadsEmpty(bits: seq<bool>, at: nat, lag: nat, t: Tree, prev: Word, v: Word, before: Word)
    requires |FrontCode(t, prev, v)| <= lag <= at && at + |FrontCode(t, prev, v)| <= |bits|
    requires forall i :: at <= i < at + |FrontCode(t, prev, v)| ==> !bits[i]
    ensures var after := Splice(bits, at - lag, FrontCode(t, prev, v));
      at + 2 <= |after| && WordAt(t, before, after[at..]) == Got([], after[at + 2..])
  {
    assert 2 <= |FrontCode(t, prev, v)|;
    hide FrontCode, Splice, WordAt;
    var after := Splice(bits, at - lag, FrontCode(t, prev, v));
    SpliceElsewhere(bits, at - lag, FrontCode(t, prev, v), at);
    SpliceElsewhere(bits, at - lag, FrontCode(t, prev, v), at + 1);
    assert after[at..][0] == after[at] && after[at..][1] == after[at + 1] && after[at..][2..] == after[at + 2..];
    BlankReadsEmpty(t, before, after[at..]);
  }

  /** The bits from a place on are a number in unary and what follows. */
  ghost predicate UnaryFrom(bits: seq<bool>, at: nat, n: nat, rest: seq<bool>) {
    at < |bits| && bits[at..] == Unary(n) + rest
  }

  lemma {:induction false} UnaryParts(bits: seq<bool>)
    requires Ends(bits)
    ensures bits == Unary(UnaryOf(bits).0) + UnaryOf(bits).1
  {
    if bits[0] {
      var i :| 0 <= i < |bits| && !bits[i];
      assert !bits[1..][i - 1];
      UnaryParts(bits[1..]);
    }
  }

  lemma UnaryStarts(bits: seq<bool>, at: nat)
    requires at <= |bits| && Ends(bits[at..])
    ensures UnaryFrom(bits, at, UnaryOf(bits[at..]).0, UnaryOf(bits[at..]).1)
  {
    hide Unary, UnaryOf;
    UnaryParts(bits[at..]);
  }

  lemma UnaryDrop(bits: seq<bool>, at: nat, n: nat, rest: seq<bool>)
    requires UnaryFrom(bits, at, n, rest)
    ensures at < |bits| && bits[at] == (n != 0)
    ensures if n == 0 then bits[at + 1..] == rest else at + 1 < |bits| && UnaryFrom(bits, at + 1, n - 1, rest)
  {
    assert bits[at] == bits[at..][0];
    assert bits[at + 1..] == bits[at..][1..];
  }

  class BlockPtr {
    const memory: Memory
    const mem: seq<Byte>
    ghost const tree: Tree
    const blockBegin: nat
    var current: BitPtr
    var lastValue: Word

    ghost predicate Valid()
      reads this, memory
    {
      && tree.Node? && Ordered(tree) && Represents(mem, SYMBOL_BOUND, tree)
      && blockBegin + BLOCK_DATA_OFFSET <= |memory.bytes|
      && current.Valid() && current.Position() <= 8 * |memory.bytes|
    }

    /** The bits from the current one on. */
    ghost function Rest(): seq<bool>
      requires Valid()
      reads this, memory
    {
      Bits(memory.bytes)[current.Position()..]
    }

    constructor (memory: Memory, blockBegin: nat, mem: seq<Byte>, ghost tree: Tree)
      requires tree.Node? && Ordered(tree) && Represents(mem, SYMBOL_BOUND, tree)
      ensures blockBegin + BLOCK_DATA_OFFSET <= |memory.bytes| ==> Valid()
      ensures lastValue == [] && this.memory == memory && this.blockBegin == blockBegin
      ensures this.mem == mem && this.tree == tree && current.Valid()
      ensures current.Position() == 8 * blockBegin + 8 * BLOCK_DATA_OFFSET
    {
      this.memory, this.blockBegin, this.mem, this.tree := memory, blockBegin, mem, tree;
      current, lastValue := BitPtr(blockBegin + BLOCK_DATA_OFFSET, 0), [];
    }

    function FirstIndex(): int
      requires Valid()
      reads this, memory
    {
      IntAt(memory.bytes, blockBegin)
    }

    function Count(): int
      requires Valid()
      reads this, memory
    {
      IntAt(memory.bytes, blockBegin + 4)
    }

    method ReadUnary() returns (val: nat)
      requires Valid() && Ends(Rest())
      modifies `current
      ensures Valid() && (val, Rest()) == UnaryOf(old(Rest()))
    {
      hide Bits, Represents, Ordered, Next, UnaryFrom, UnaryOf, Ends, BitPtr.Position;
      val := 0;
      ghost var bits, n, rest := Bits(memory.bytes), UnaryOf(Rest()).0, UnaryOf(Rest()).1;
      UnaryStarts(bits, current.Position());
      UnaryDrop(bits, current.Position(), n, rest);
      InBlock(current, |memory.bytes|);
      while memory.Get(current)
        invariant Valid() && val <= n && UnaryFrom(bits, current.Position(), n - val, rest)
        invariant current.block < |memory.bytes|
        decreases n - val
      {
        UnaryDrop(bits, current.Position(), n - val, rest);
        val := val + 1;
        current := Next(current);
        UnaryDrop(bits, current.Position(), n - val, rest);
        InBlock(current, |memory.bytes|);
      }
      UnaryDrop(bits, current.Position(), n - val, rest);
      current := Next(current);
    }

    /** `hutucker_codec::decode` of `n` symbols, appended to `head` */
    method DecodeSuffix(n: nat, head: Word) returns (value: Word)
      requires Valid() && WordOf(tree, n, Rest()).Got?
      modifies `current
      ensures Valid()
      ensures value == head + old(WordOf(tree, n, Rest())).word && Rest() == old(WordOf(tree, n, Rest())).rest
    {
      hide Bits, Represents, Ordered, AlphabeticTree.Decode;
      value := head;
      for i := 0 to n
        invariant Valid() && WordOf(tree, n - i, Rest()).Got?
        invariant value + WordOf(tree, n - i, Rest()).word == head + old(WordOf(tree, n, Rest())).word
        invariant WordOf(tree, n - i, Rest()).rest == old(WordOf(tree, n, Rest())).rest
      {
        var symbol;
        symbol, current := DecodeAt(mem, tree, memory, current);
        value := value + [symbol];
      }
    }

    /** The next word, as long as it does not run over the end of the memory. */
    method NextWord() returns (value: Word)
      requires Valid() && WordAt(tree, lastValue, Rest()).Got?
      modifies this
      ensures Valid() && value == lastValue && Got(value, Rest()) == old(WordAt(tree, lastValue, Rest()))
    {
      hide Bits, Represents, Ordered, UnaryOf, WordOf, Ends;
      var commonPrefixLen := ReadUnary();
      var suffixLen := ReadUnary();
      value := DecodeSuffix(suffixLen, Resized(lastValue, commonPrefixLen));
      lastValue := value;
    }
  }
}
