/**
 Reading and writing single bits over byte streams (`irk::input_bit_stream` and
 `irk::output_bit_stream`).
 */
module BitStream {
  import opened BitMemory

  function Zeros(n: nat): (r: seq<bool>)
    ensures |r| == n
    ensures forall i :: 0 <= i < n ==> !r[i]
  {
    seq(n, _ => false)
  }

  /** How many zero bits complete `n` bits to whole bytes. */
  function Padding(n: nat): nat {
    (8 - n % 8) % 8
  }

  function OrBit(b: bv8, i: nat, v: bool): (r: bv8)
    requires i < 8
    ensures forall j :: 0 <= j < 8 ==> Bit(r, j) == (Bit(b, j) || (j == i && v))
  {
    b | (if v then Mask(i) else 0)
  }

  lemma ByteBits(b: bv8)
    ensures forall j :: 0 <= j < 8 ==> Bits([b])[j] == Bit(b, j)
  {
    forall j | 0 <= j < 8 ensures Bits([b])[j] == Bit(b, j) {
      assert BitAt([b], j) == Bit(b, j);
    }
  }

  lemma PaddingOf(n: nat, whole: nat, buffered: nat)
    requires n == 8 * whole + buffered && buffered < 8
    ensures Padding(n) == if buffered == 0 then 0 else 8 - buffered
    ensures (n + 7) / 8 == if buffered == 0 then whole else whole + 1
  {
  }

  /** Whole bytes that hold given bits are the numbers these bits spell, lowest bit first. */
  lemma BytesSpell(out: seq<bv8>, written: seq<bool>)
    requires 8 * |out| <= |written| && Bits(out) == written[..8 * |out|]
    ensures forall i :: 0 <= i < |out| ==>
      var bits := written[8 * i..8 * i + 8];
      out[i] as nat == (if bits[0] then 1 else 0) + (if bits[1] then 2 else 0) + (if bits[2] then 4 else 0)
                       + (if bits[3] then 8 else 0) + (if bits[4] then 16 else 0) + (if bits[5] then 32 else 0)
                       + (if bits[6] then 64 else 0) + (if bits[7] then 128 else 0)
  {
    hide Bits;
    forall i | 0 <= i < |out|
      ensures var bits := written[8 * i..8 * i + 8];
        out[i] as nat == (if bits[0] then 1 else 0) + (if bits[1] then 2 else 0) + (if bits[2] then 4 else 0)
                         + (if bits[3] then 8 else 0) + (if bits[4] then 16 else 0) + (if bits[5] then 32 else 0)
                         + (if bits[6] then 64 else 0) + (if bits[7] then 128 else 0)
    {
      ByteOfBits(out, i);
      assert Bits(out)[8 * i..8 * i + 8] == written[8 * i..8 * i + 8];
    }
  }

  class OutputBitStream {
    var byte: bv8
    var buffered: nat
    /** The bytes handed to the underlying stream so far. */
    var out: seq<bv8>
    ghost var written: seq<bool>

    /** The buffered byte holds the last written bits and zeros above them. */
    ghost predicate Valid()
      reads this
    {
      && buffered < 8
      && |written| == 8 * |out| + buffered
      && Bits(out) == written[..8 * |out|]
      && forall j :: 0 <= j < 8 ==> Bit(byte, j) == (j < buffered && written[8 * |out| + j])
    }

    constructor ()
      ensures Valid() && written == [] && out == []
    {
      byte, buffered, out, written := 0, 0, [], [];
    }

    /** At any time the bytes handed out are the numbers their written bits spell. */
    lemma Spelled()
      requires Valid()
      ensures forall i :: 0 <= i < |out| ==>
        var bits := written[8 * i..8 * i + 8];
        out[i] as nat == (if bits[0] then 1 else 0) + (if bits[1] then 2 else 0) + (if bits[2] then 4 else 0)
                         + (if bits[3] then 8 else 0) + (if bits[4] then 16 else 0) + (if bits[5] then 32 else 0)
                         + (if bits[6] then 64 else 0) + (if bits[7] then 128 else 0)
    {
      BytesSpell(out, written);
    }

    method DoFlush()
      requires |written| == 8 * |out| + 8 && Bits(out) == written[..8 * |out|]
      requires forall j :: 0 <= j < 8 ==> Bit(byte, j) == written[8 * |out| + j]
      modifies this
      ensures Valid() && buffered == 0 && written == old(written)
      ensures |out| == |old(out)| + 1 && old(out) <= out
    {
      BitsConcat(out, [byte]);
      ByteBits(byte);
      assert Bits([byte]) == written[8 * |out|..];
      out := out + [byte];
      buffered := 0;
      byte := 0;
    }

    method Write(bit: bool)
      requires Valid()
      modifies this
      ensures Valid() && written == old(written) + [bit]
      ensures old(out) <= out && |out| == |written| / 8
    {
      hide Bits, OrBit, Bit;
      written := written + [bit];
      byte := OrBit(byte, buffered, bit);
      buffered := buffered + 1;
      if buffered == 8 {
        DoFlush();
      }
    }

    /** Completes the last byte with zeros, if one is begun. */
    method Flush()
      requires Valid()
      modifies this
      ensures Valid() && buffered == 0
      ensures written == old(written) + Zeros(Padding(|old(written)|))
      ensures Bits(out) == written && |out| == (|old(written)| + 7) / 8
      ensures old(out) <= out
      ensures forall i :: 0 <= i < |out| ==>
        var bits := written[8 * i..8 * i + 8];
        out[i] as nat == (if bits[0] then 1 else 0) + (if bits[1] then 2 else 0) + (if bits[2] then 4 else 0)
                         + (if bits[3] then 8 else 0) + (if bits[4] then 16 else 0) + (if bits[5] then 32 else 0)
                         + (if bits[6] then 64 else 0) + (if bits[7] then 128 else 0)
    {
      hide Bits;
      PaddingOf(|written|, |out|, buffered);
      if buffered > 0 {
        written := written + Zeros(8 - buffered);
        DoFlush();
      }
      assert written[..|written|] == written;
      BytesSpell(out, written);
    }
  }

  lemma ConsRest<T>(x: T, a: seq<T>, b: seq<T>)
    ensures ([x] + a) + b == [x] + (a + b)
  {
  }

  lemma FirstByte(bytes: seq<bv8>)
    requires bytes != []
    ensures Bits(bytes) == Bits([bytes[0]])[0..] + Bits(bytes[1..])
  {
    BitsConcat([bytes[0]], bytes[1..]);
    assert [bytes[0]] + bytes[1..] == bytes;
  }

  lemma FirstBit(b: bv8, i: nat)
    requires i < 8
    ensures Bits([b])[i..] == [Bit(b, i)] + Bits([b])[i + 1..]
  {
    ByteBits(b);
  }

  class InputBitStream {
    var byte: bv8
    var bufferedPos: nat
    /** The bytes the underlying stream still holds. */
    var input: seq<bv8>

    ghost predicate Valid()
      reads this
    {
      bufferedPos <= 8
    }

    /** The bits not read yet. */
    ghost function Rest(): seq<bool>
      requires Valid()
      reads this
    {
      Bits([byte])[bufferedPos..] + Bits(input)
    }

    constructor (input: seq<bv8>)
      ensures Valid() && Rest() == Bits(input)
    {
      byte, bufferedPos := 0, 8;
      this.input := input;
    }

    /** The next bit as 0 or 1, or -1 at the end of the stream. */
    method Read() returns (bit: int)
      requires Valid()
      modifies this
      ensures Valid()
      ensures old(Rest()) == [] ==> bit == -1 && Rest() == []
      ensures old(Rest()) != [] ==> bit == (if old(Rest())[0] then 1 else 0) && Rest() == old(Rest())[1..]
    {
      if bufferedPos == 8 {
        assert Bits([byte])[8..] + Bits(input) == Bits(input);
        if input == [] {
          return -1;
        }
        FirstByte(input);
        byte, input := input[0], input[1..];
        bufferedPos := 0;
      }
      hide Bits, Bit;
      FirstBit(byte, bufferedPos);
      ConsRest(Bit(byte, bufferedPos), Bits([byte])[bufferedPos + 1..], Bits(input));
      bit := if Bit(byte, bufferedPos) then 1 else 0;
      bufferedPos := bufferedPos + 1;
    }
  }
}
