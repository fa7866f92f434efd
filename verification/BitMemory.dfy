/**
 Bits in a byte buffer and the pointer to a single bit (`irk::bitptr` with `Block = char`).
 */
module BitMemory {

  /** `1 << i` in a byte. */
  function Mask(i: nat): bv8
    requires i < 8
  {
    if i == 0 then 1 else if i == 1 then 2 else if i == 2 then 4 else if i == 3 then 8
    else if i == 4 then 16 else if i == 5 then 32 else if i == 6 then 64 else 128
  }

  predicate Bit(b: bv8, i: nat)
    requires i < 8
  {
    b & Mask(i) != 0
  }

  /** The program's branch-free assignment of one bit. */
  function WithBit(b: bv8, i: nat, v: bool): (r: bv8)
    requires i < 8
    ensures forall j :: 0 <= j < 8 ==> Bit(r, j) == (if j == i then v else Bit(b, j))
  {
    var all: bv8 := if v then 0xFF else 0;
    b ^ ((all ^ b) & Mask(i))
  }

  /** It sets or clears the bit of that weight. */
  lemma WithBitIs(b: bv8, i: nat, v: bool)
    requires i < 8
    ensures var weight: bv8 := [1, 2, 4, 8, 16, 32, 64, 128][i];
      WithBit(b, i, v) == if v then b | weight else b & !weight
  {
  }

  lemma DigitsOfByte(b: bv8)
    ensures b as nat == (if Bit(b, 0) then 1 else 0) + (if Bit(b, 1) then 2 else 0) + (if Bit(b, 2) then 4 else 0)
                        + (if Bit(b, 3) then 8 else 0) + (if Bit(b, 4) then 16 else 0) + (if Bit(b, 5) then 32 else 0)
                        + (if Bit(b, 6) then 64 else 0) + (if Bit(b, 7) then 128 else 0)
  {
  }

  predicate BitAt(bytes: seq<bv8>, p: nat)
    requires p < 8 * |bytes|
  {
    Bit(bytes[p / 8], p % 8)
  }

  /** The bits of a buffer, least significant bit of the first byte first. */
  function Bits(bytes: seq<bv8>): (r: seq<bool>)
    ensures |r| == 8 * |bytes|
    ensures forall p :: 0 <= p < |r| ==> r[p] == BitAt(bytes, p)
  {
    seq(8 * |bytes|, p requires 0 <= p < 8 * |bytes| => BitAt(bytes, p))
  }

  /** The bits of a buffer are the binary digits of its bytes, lowest first. */
  lemma ByteOfBits(bytes: seq<bv8>, i: nat)
    requires i < |bytes|
    ensures var bits := Bits(bytes)[8 * i..8 * i + 8];
      bytes[i] as nat == (if bits[0] then 1 else 0) + (if bits[1] then 2 else 0) + (if bits[2] then 4 else 0)
                         + (if bits[3] then 8 else 0) + (if bits[4] then 16 else 0) + (if bits[5] then 32 else 0)
                         + (if bits[6] then 64 else 0) + (if bits[7] then 128 else 0)
  {
    var bits := Bits(bytes)[8 * i..8 * i + 8];
    forall j | 0 <= j < 8 ensures bits[j] == Bit(bytes[i], j) {
      assert bits[j] == BitAt(bytes, 8 * i + j);
    }
    DigitsOfByte(bytes[i]);
  }

  /** `bits` with `source` written over it from position `at` on. */
  function Splice(bits: seq<bool>, at: nat, source: seq<bool>): (r: seq<bool>)
    requires at + |source| <= |bits|
    ensures |r| == |bits|
  {
    bits[..at] + source + bits[at + |source|..]
  }

  lemma BitsSet(bytes: seq<bv8>, p: nat, v: bool)
    requires p < 8 * |bytes|
    ensures Bits(bytes[p / 8 := WithBit(bytes[p / 8], p % 8, v)]) == Bits(bytes)[p := v]
  {
    var changed := bytes[p / 8 := WithBit(bytes[p / 8], p % 8, v)];
    forall q | 0 <= q < 8 * |bytes| ensures BitAt(changed, q) == Bits(bytes)[p := v][q] {
    }
  }

  lemma BitsConcat(a: seq<bv8>, b: seq<bv8>)
    ensures Bits(a + b) == Bits(a) + Bits(b)
  {
    forall p | 0 <= p < 8 * (|a| + |b|) ensures BitAt(a + b, p) == (Bits(a) + Bits(b))[p] {
      if p < 8 * |a| {
        assert (a + b)[p / 8] == a[p / 8];
      } else {
        var q := p - 8 * |a|;
        assert p / 8 == |a| + q / 8 && p % 8 == q % 8;
        assert (a + b)[p / 8] == b[q / 8];
      }
    }
  }

  lemma BitsSlice(bytes: seq<bv8>, from: nat, to: nat)
    requires from <= to <= |bytes|
    ensures Bits(bytes[from..to]) == Bits(bytes)[8 * from..8 * to]
  {
    assert bytes == bytes[..from] + (bytes[from..to] + bytes[to..]);
    BitsConcat(bytes[..from], bytes[from..to] + bytes[to..]);
    BitsConcat(bytes[from..to], bytes[to..]);
  }

  // ---- 32-bit integers in memory ----

  function BitValue(b: bv8, i: nat): nat
    requires i < 8
  {
    if Bit(b, i) then 1 else 0
  }

  /** The unsigned value of a byte. */
  function ByteValue(b: bv8): nat {
    BitValue(b, 0) + 2 * BitValue(b, 1) + 4 * BitValue(b, 2) + 8 * BitValue(b, 3)
    + 16 * BitValue(b, 4) + 32 * BitValue(b, 5) + 64 * BitValue(b, 6) + 128 * BitValue(b, 7)
  }

  function MaskIf(c: bool, i: nat): bv8
    requires i < 8
  {
    if c then Mask(i) else 0
  }

  /** Bit `i` of a number. */
  function Halved(x: nat, i: nat): nat {
    if i == 0 then x else Halved(x, i - 1) / 2
  }

  predicate BinaryDigit(x: nat, i: nat) {
    Halved(x, i) % 2 == 1
  }

  /** The byte with a given unsigned value. */
  function ByteOf(x: nat): (b: bv8)
    ensures forall i :: 0 <= i < 8 ==> Bit(b, i) == BinaryDigit(x, i)
  {
    MaskIf(BinaryDigit(x, 0), 0) | MaskIf(BinaryDigit(x, 1), 1) | MaskIf(BinaryDigit(x, 2), 2)
    | MaskIf(BinaryDigit(x, 3), 3) | MaskIf(BinaryDigit(x, 4), 4) | MaskIf(BinaryDigit(x, 5), 5)
    | MaskIf(BinaryDigit(x, 6), 6) | MaskIf(BinaryDigit(x, 7), 7)
  }

  lemma DigitStep(x: nat, i: nat)
    requires i < 8
    ensures Halved(x, i) == 2 * Halved(x, i + 1) + BitValue(ByteOf(x), i)
  {
  }

  lemma FourDigits(x: nat, i: nat)
    requires i <= 4
    ensures var b := ByteOf(x); Halved(x, i) == BitValue(b, i) + 2 * BitValue(b, i + 1) + 4 * BitValue(b, i + 2)
                                + 8 * BitValue(b, i + 3) + 16 * Halved(x, i + 4)
  {
    hide BitValue, ByteOf, Halved;
    DigitStep(x, i);
    DigitStep(x, i + 1);
    DigitStep(x, i + 2);
    DigitStep(x, i + 3);
  }

  lemma SmallHalves(x: nat, high: nat, low: nat)
    requires x == low + 256 * high && x < 256
    ensures low == x
  {
  }

  lemma ByteRoundTrip(x: nat)
    requires x < 0x100
    ensures ByteValue(ByteOf(x)) == x
  {
    assert Halved(x, 0) == x;
    hide BitValue, ByteOf, Halved;
    FourDigits(x, 0);
    FourDigits(x, 4);
    SmallHalves(x, Halved(x, 8), ByteValue(ByteOf(x)));
  }

  lemma ByteValueIs(b: bv8)
    ensures ByteValue(b) == b as nat
  {
    DigitsOfByte(b);
  }

  lemma ByteOfIs(x: nat)
    requires x < 0x100
    ensures ByteOf(x) as nat == x
  {
    hide ByteOf, ByteValue;
    ByteRoundTrip(x);
    ByteValueIs(ByteOf(x));
  }

  lemma HalvedIs(x: nat, i: nat)
    requires i < 8
    ensures Halved(x, i) == x / [1, 2, 4, 8, 16, 32, 64, 128][i]
  {
    if i != 0 {
      HalvedIs(x, i - 1);
      if
      case i == 1 =>
      case i == 2 =>
      case i == 3 =>
      case i == 4 =>
      case i == 5 =>
      case i == 6 =>
      case i == 7 =>
    }
  }

  lemma SameByte(a: bv8, b: bv8)
    requires a as nat == b as nat
    ensures a == b
  {
    assert a == (a as nat) as bv8 && b == (b as nat) as bv8;
  }

  /** Bit `i` is the digit of weight 2 to the i in the byte's value. */
  lemma BitIsDigit(b: bv8, i: nat)
    requires i < 8
    ensures Bit(b, i) <==> (b as nat / [1, 2, 4, 8, 16, 32, 64, 128][i]) % 2 == 1
  {
    hide Bit, ByteOf;
    ByteOfIs(b as nat);
    SameByte(b, ByteOf(b as nat));
    HalvedIs(b as nat, i);
  }

  /** A non-negative `int` as four little-endian bytes. */
  function IntBytes(v: nat): (r: seq<bv8>)
    ensures |r| == 4
  {
    var w := v / 0x100;
    var y := w / 0x100;
    var z := y / 0x100;
    [ByteOf(v % 0x100), ByteOf(w % 0x100), ByteOf(y % 0x100), ByteOf(z % 0x100)]
  }

  /** The `int` stored at a place. */
  function IntAt(bytes: seq<bv8>, at: nat): int
    requires at + 4 <= |bytes|
  {
    var v := ByteValue(bytes[at]) + 0x100 * ByteValue(bytes[at + 1])
           + 0x1_0000 * ByteValue(bytes[at + 2]) + 0x100_0000 * ByteValue(bytes[at + 3]);
    if v < 0x8000_0000 then v else v - 0x1_0000_0000
  }

  /** The four bytes, lowest first. */
  lemma IntBytesAre(v: nat)
    requires v < 0x1_0000_0000
    ensures var r := IntBytes(v);
      v == r[0] as nat + 0x100 * r[1] as nat + 0x1_0000 * r[2] as nat + 0x100_0000 * r[3] as nat
  {
    hide ByteOf, ByteValue;
    var w, y, z := v / 0x100, v / 0x100 / 0x100, v / 0x100 / 0x100 / 0x100;
    assert IntBytes(v) == [ByteOf(v % 0x100), ByteOf(w % 0x100), ByteOf(y % 0x100), ByteOf(z % 0x100)];
    assert v == 0x100 * w + v % 0x100 && w == 0x100 * y + w % 0x100 && y == 0x100 * z + y % 0x100 && z % 0x100 == z;
    ByteOfIs(v % 0x100);
    ByteOfIs(w % 0x100);
    ByteOfIs(y % 0x100);
    ByteOfIs(z % 0x100);
  }

  /** The `int` read is the signed number the four bytes spell, lowest first. */
  lemma IntAtIs(bytes: seq<bv8>, at: nat)
    requires at + 4 <= |bytes|
    ensures var v := bytes[at] as nat + 0x100 * bytes[at + 1] as nat + 0x1_0000 * bytes[at + 2] as nat
                     + 0x100_0000 * bytes[at + 3] as nat;
      IntAt(bytes, at) == if v < 0x8000_0000 then v else v - 0x1_0000_0000
  {
    hide ByteValue;
    ByteValueIs(bytes[at]);
    ByteValueIs(bytes[at + 1]);
    ByteValueIs(bytes[at + 2]);
    ByteValueIs(bytes[at + 3]);
  }

  lemma IntRoundTrip(v: nat)
    requires v < 0x8000_0000
    ensures IntAt(IntBytes(v), 0) == v
  {
    hide ByteOf, ByteValue;
    var w, y, z := v / 0x100, v / 0x100 / 0x100, v / 0x100 / 0x100 / 0x100;
    assert IntBytes(v) == [ByteOf(v % 0x100), ByteOf(w % 0x100), ByteOf(y % 0x100), ByteOf(z % 0x100)];
    assert v == 0x100 * w + v % 0x100 && w == 0x100 * y + w % 0x100 && y == 0x100 * z + y % 0x100 && z % 0x100 == z;
    ByteRoundTrip(v % 0x100);
    ByteRoundTrip(w % 0x100);
    ByteRoundTrip(y % 0x100);
    ByteRoundTrip(z % 0x100);
  }

  // ---- Bit pointers ----

  /** Conversion to `uint8_t` */
  function AsByte(x: int): (r: nat)
    ensures r < 256
  {
    x % 256
  }

  /** Only whole multiples of 256 are lost. */
  lemma AsByteIsCongruent(x: int)
    ensures (x - AsByte(x)) % 256 == 0
  {
    assert x - AsByte(x) == 256 * (x / 256);
  }

  /** A byte offset and a shift from that byte's least significant bit. */
  datatype BitPtr = BitPtr(block: nat, shift: nat) {
    ghost predicate Valid() {
      shift < 8
    }

    function Position(): nat {
      8 * block + shift
    }

    /** `ptr += n`: the shift is a `uint8_t` while the program adds to it. */
    function Plus(n: int): (r: BitPtr)
      ensures r.Valid()
    {
      var sum := AsByte(shift + n);
      BitPtr(block + sum / 8, sum % 8)
    }
  }

  lemma PlusSum(p: BitPtr, n: int)
    requires p.Valid()
    ensures p.Plus(n).Valid() && p.Plus(n).Position() == 8 * p.block + AsByte(p.shift + n)
  {
    hide AsByte;
    var sum := AsByte(p.shift + n);
    assert p.Plus(n) == BitPtr(p.block + sum / 8, sum % 8);
  }

  /** The pointer moves by exactly `n` bits if and only if shift and `n` sum to a byte. */
  lemma PlusIsExact(p: BitPtr, n: int)
    requires p.Valid()
    ensures p.Plus(n).Position() == p.Position() + n <==> 0 <= p.shift + n <= 255
  {
    hide BitPtr.Plus;
    PlusSum(p, n);
  }

  /** Where adding `n` takes a pointer at a position. */
  function Moved(at: nat, n: nat): nat {
    at - at % 8 + AsByte(at % 8 + n)
  }

  lemma ShiftOf(p: BitPtr)
    requires p.Valid()
    ensures p.shift == p.Position() % 8
  {
  }

  lemma PlusMoves(p: BitPtr, n: nat)
    requires p.Valid()
    ensures p.Plus(n).Position() == Moved(p.Position(), n)
  {
    hide BitPtr.Plus, AsByte;
    PlusSum(p, n);
    ShiftOf(p);
  }

  lemma MovedBehind(begin: nat, at: nat, n: nat)
    ensures Moved(8 * begin + at, n) == 8 * begin + Moved(at, n)
  {
    hide AsByte;
    assert (8 * begin + at) % 8 == at % 8;
  }

  /** A pointer never moves too far, and never before the byte it is in. */
  lemma PlusAtMost(p: BitPtr, n: nat)
    requires p.Valid()
    ensures p.Plus(n).Position() <= p.Position() + n && p.block <= p.Plus(n).block
  {
    hide BitPtr.Plus;
    PlusSum(p, n);
  }

  lemma InBlock(p: BitPtr, n: nat)
    requires p.Valid() && p.Position() < 8 * n
    ensures p.block < n
  {
  }

  /** Moving by a whole multiple of 256 bits does not move at all. */
  lemma PlusLosesPages(p: BitPtr)
    requires p.Valid()
    ensures p.Plus(256) == p
  {
    hide BitPtr.Plus;
    PlusSum(p, 256);
    assert AsByte(p.shift + 256) == p.shift;
  }

  /** `++ptr` */
  function Next(p: BitPtr): (r: BitPtr)
    requires p.Valid()
    ensures r.Valid() && r.Position() == p.Position() + 1
  {
    PlusIsExact(p, 1);
    p.Plus(1)
  }

  /** `i` taken back by whole steps of `d`. */
  function Ripple(i: nat, d: nat): (r: nat)
    requires 0 < d
    ensures r < d && r <= i
  {
    if i < d then i else Ripple(i - d, d)
  }

  /** The bit that ends up at `p`. */
  function Origin(p: nat, at: nat, from: nat): (r: nat)
    requires at <= p
    ensures from <= r <= from + (p - at)
  {
    from + if from < at then Ripple(p - at, at - from) else p - at
  }

  /** `length` bits from `from` are copied to `at`, one after the other, and no others change. */
  ghost predicate Copied(before: seq<bool>, after: seq<bool>, at: nat, from: nat, length: nat) {
    && |after| == |before| && at + length <= |before| && from + length <= |before|
    && (forall p :: 0 <= p < |before| && (p < at || at + length <= p) ==> after[p] == before[p])
    && forall p :: at <= p < at + length ==> after[p] == before[Origin(p, at, from)]
  }

  lemma NothingCopied(bits: seq<bool>, at: nat, from: nat)
    requires at <= |bits| && from <= |bits|
    ensures Copied(bits, bits, at, from, 0)
  {
  }

  lemma CopiedOneMore(before: seq<bool>, after: seq<bool>, at: nat, from: nat, i: nat)
    requires Copied(before, after, at, from, i) && at + i < |before| && from + i < |before|
    ensures Copied(before, after[at + i := after[from + i]], at, from, i + 1)
  {
    assert after[from + i] == before[Origin(at + i, at, from)] by {
      if from < at && at - from <= i {
        assert after[from + i] == before[Origin(from + i, at, from)];
      }
    }
  }

  lemma SpliceElsewhere(bits: seq<bool>, at: nat, source: seq<bool>, p: nat)
    requires at + |source| <= |bits| && p < |bits|
    requires p < at || at + |source| <= p
    ensures Splice(bits, at, source)[p] == bits[p]
  {
  }

  lemma SpliceAt(bits: seq<bool>, at: nat, source: seq<bool>, p: nat)
    requires at + |source| <= |bits| && at <= p < at + |source|
    ensures Splice(bits, at, source)[p] == source[p - at]
  {
  }

  /** Unless the target starts inside the source, it receives the source's old bits. */
  lemma CopiedApart(before: seq<bool>, after: seq<bool>, at: nat, from: nat, length: nat)
    requires Copied(before, after, at, from, length) && (at <= from || from + length <= at)
    ensures after == Splice(before, at, before[from..from + length])
  {
    hide Splice;
    var part := before[from..from + length];
    forall p | 0 <= p < |before| ensures after[p] == Splice(before, at, part)[p] {
      if p < at || at + length <= p {
        SpliceElsewhere(before, at, part, p);
      } else {
        SpliceAt(before, at, part, p);
        assert Origin(p, at, from) == from + (p - at);
      }
    }
  }

  /** A target ahead of the source ends up as a repetition of the bits between the two. */
  lemma CopiedAhead(before: seq<bool>, after: seq<bool>, at: nat, from: nat, length: nat, p: nat)
    requires Copied(before, after, at, from, length) && from < at <= p < at + length
    ensures after[p] == after[p - (at - from)]
  {
    var d := at - from;
    if p - d < at {
      assert Origin(p, at, from) == p - d;
    } else {
      assert Origin(p, at, from) == Origin(p - d, at, from);
    }
  }

  lemma SpliceSnoc(bits: seq<bool>, at: nat, source: seq<bool>, i: nat)
    requires at + |source| <= |bits| && i < |source|
    ensures Splice(bits, at, source[..i])[at + i := source[i]] == Splice(bits, at, source[..i + 1])
  {
  }

  /** A growable byte buffer that several bit pointers refer to. */
  class Memory {
    var bytes: seq<bv8>

    constructor (bytes: seq<bv8>)
      ensures this.bytes == bytes
    {
      this.bytes := bytes;
    }

    /** `ptr.set(v)` */
    method Set(p: BitPtr, v: bool)
      requires p.Valid() && p.block < |bytes|
      modifies this
      ensures |bytes| == |old(bytes)|
      ensures Bits(bytes) == Bits(old(bytes))[p.Position() := v]
    {
      BitsSet(bytes, p.Position(), v);
      bytes := bytes[p.block := WithBit(bytes[p.block], p.shift, v)];
    }

    /** `*ptr` */
    function Get(p: BitPtr): (r: bool)
      requires p.Valid() && p.block < |bytes|
      reads this
      ensures r == Bits(bytes)[p.Position()]
    {
      Bit(bytes[p.block], p.shift)
    }

    /** `memcpy` of some bytes */
    method WriteBytes(at: nat, data: seq<bv8>)
      requires at + |data| <= |bytes|
      modifies this
      ensures bytes == old(bytes)[..at] + data + old(bytes)[at + |data|..]
    {
      bytes := bytes[..at] + data + bytes[at + |data|..];
    }

    /** `resize` to a larger size, with zero bytes */
    method Grow(n: nat)
      modifies this
      ensures bytes == old(bytes) + seq(n, _ => 0)
    {
      bytes := bytes + seq(n, _ => 0);
    }

    /** `bitcpy(target, source)` from a bitset: writes the source and nothing else. */
    method CopyBits(target: BitPtr, source: seq<bool>)
      requires target.Valid() && target.Position() + |source| <= 8 * |bytes|
      modifies this
      ensures |bytes| == |old(bytes)|
      ensures Bits(bytes) == Splice(Bits(old(bytes)), target.Position(), source)
    {
      var p := target;
      ghost var at := target.Position();
      var copied := 0;
      while copied < |source|
        invariant 0 <= copied <= |source| && |bytes| == |old(bytes)|
        invariant p.Valid() && p.Position() == at + copied
        invariant Bits(bytes) == Splice(Bits(old(bytes)), at, source[..copied])
      {
        SpliceSnoc(Bits(old(bytes)), at, source, copied);
        Set(p, source[copied]);
        copied, p := copied + 1, Next(p);
      }
      assert source[..|source|] == source;
    }

    /** `bitcpy(target, source, length)` between pointers. Copying runs forward: a target that
        starts `d` bits inside the source range receives the first `d` bits over and over. */
    method CopyRange(target: BitPtr, source: BitPtr, length: nat)
      requires target.Valid() && target.Position() + length <= 8 * |bytes|
      requires source.Valid() && source.Position() + length <= 8 * |bytes|
      modifies this
      ensures |bytes| == |old(bytes)|
      ensures Copied(Bits(old(bytes)), Bits(bytes), target.Position(), source.Position(), length)
    {
      hide Bits, Next, Copied;
      var p, q := target, source;
      ghost var at, from, before := target.Position(), source.Position(), Bits(bytes);
      NothingCopied(before, at, from);
      var copied := 0;
      while copied < length
        invariant 0 <= copied <= length && |bytes| == |old(bytes)|
        invariant p.Valid() && p.Position() == at + copied && q.Valid() && q.Position() == from + copied
        invariant Copied(before, Bits(bytes), at, from, copied)
      {
        CopiedOneMore(before, Bits(bytes), at, from, copied);
        Set(p, Get(q));
        p, q := Next(p), Next(q);
        copied := copied + 1;
      }
    }
  }

  lemma SpliceNothing(bits: seq<bool>, at: nat)
    requires at <= |bits|
    ensures Splice(bits, at, []) == bits
  {
  }
}
