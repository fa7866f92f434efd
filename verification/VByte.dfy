/**
 Variable-byte coding (`irk::vbyte_codec`): seven bits a byte, the lowest first, and the
 high bit (128, the program's `maxv`) on the last byte. Values of any integer type of up to
 64 bits are coded as `size_t`; differences wrap around in their type.
 */
module VByte {
  import AlphabeticTree

  type Byte = AlphabeticTree.Byte

  // ---- Integer types ----

  /** An integer type of `modulus` values from `low` on. Its width divides 64 bits. */
  datatype IntType = IntType(low: int, modulus: nat) {
    ghost predicate Valid() {
      && low <= 0 < low + modulus
      && 0x1_0000_0000_0000_0000 % modulus == 0
    }

    predicate Has(v: int) {
      low <= v < low + modulus
    }
  }

  /** `static_cast<size_t>` */
  function AsSize(v: int): (r: nat)
    ensures 0 <= v < 0x1_0000_0000_0000_0000 ==> r == v
    ensures -0x1_0000_0000_0000_0000 <= v < 0 ==> r == v + 0x1_0000_0000_0000_0000
    ensures r < 0x1_0000_0000_0000_0000
  {
    v % 0x1_0000_0000_0000_0000
  }

  /** Conversion of a `size_t` to the type. */
  function Narrow(t: IntType, n: nat): (r: int)
    requires t.Valid()
    ensures t.Has(r)
  {
    (n - t.low) % t.modulus + t.low
  }

  lemma Further(m: nat, a: int, b: int)
    requires a < b
    ensures a * m + m <= b * m
  {
    var k := b - a - 1;
    assert b * m == a * m + k * m + m by {
      assert b == a + k + 1;
    }
    assert 0 <= k * m;
  }

  lemma SameRemainder(m: nat, a: int, r: nat, b: int, s: nat)
    requires r < m && s < m && a * m + r == b * m + s
    ensures r == s
  {
    if a < b {
      Further(m, a, b);
    } else if b < a {
      Further(m, b, a);
    }
  }

  lemma RemainderOf(x: int, m: nat, q: int, r: nat)
    requires x == q * m + r && r < m
    ensures x % m == r
  {
    assert x == (x / m) * m + x % m;
    SameRemainder(m, x / m, x % m, q, r);
  }

  /** Converting a value of the type to `size_t` and back restores it. */
  lemma NarrowBack(t: IntType, v: int)
    requires t.Valid() && t.Has(v)
    ensures Narrow(t, AsSize(v)) == v
  {
    var size, m := 0x1_0000_0000_0000_0000, t.modulus;
    var q := size / m;
    assert size == q * m + size % m;
    var k := -(v / size);
    assert AsSize(v) == v + k * size;
    assert k * size == k * (q * m) == (k * q) * m;
    assert 0 * m + (v - t.low) == v - t.low;
    RemainderOf(AsSize(v) - t.low, m, k * q, v - t.low);
  }

  /** Any other number is converted to the value of the type a multiple of the modulus away. */
  lemma NarrowIsCongruent(t: IntType, n: nat)
    requires t.Valid()
    ensures (n - Narrow(t, n)) % t.modulus == 0
  {
    var m := t.modulus;
    var q := (n - t.low) / m;
    assert n - t.low == q * m + (n - t.low) % m;
    RemainderOf(n - Narrow(t, n), m, q, 0);
  }

  /** All values are of the type. */
  ghost predicate InType(t: IntType, vs: seq<int>) {
    forall i :: 0 <= i < |vs| ==> t.Has(vs[i])
  }

  /** Subtraction in the type. */
  function Minus(t: IntType, a: int, b: int): (r: int)
    requires t.Has(0) && t.Has(a) && t.Has(b)
    ensures t.Has(r) && (r == a - b || r == a - b + t.modulus || r == a - b - t.modulus)
  {
    if a - b < t.low then a - b + t.modulus else if t.Has(a - b) then a - b else a - b - t.modulus
  }

  /** Addition in the type. */
  function Plus(t: IntType, a: int, b: int): (r: int)
    requires t.Has(0) && t.Has(a) && t.Has(b)
    ensures t.Has(r) && (r == a + b || r == a + b + t.modulus || r == a + b - t.modulus)
  {
    if a + b < t.low then a + b + t.modulus else if t.Has(a + b) then a + b else a + b - t.modulus
  }

  // ---- Codes ----

  function Code(v: nat): (r: seq<Byte>)
    ensures r != []
  {
    if v < 128 then [v + 128] else [v % 128] + Code(v / 128)
  }

  function CodeAll(vs: seq<int>): seq<Byte> {
    if vs == [] then [] else Code(AsSize(vs[0])) + CodeAll(vs[1..])
  }

  datatype Decoded = Ended | Got(value: nat, rest: seq<Byte>)

  function Read(bytes: seq<Byte>): Decoded {
    if bytes == [] then Ended
    else if 128 <= bytes[0] then Got(bytes[0] - 128, bytes[1..])
    else match Read(bytes[1..])
         case Ended => Ended
         case Got(v, rest) => Got(bytes[0] + 128 * v, rest)
  }

  /** Reading inverts coding and consumes exactly the code, whatever follows it. */
  lemma {:induction false} ReadInvertsCode(v: nat, rest: seq<Byte>)
    ensures Read(Code(v) + rest) == Got(v, rest)
  {
    var bytes := Code(v) + rest;
    if v < 128 {
      assert bytes[1..] == rest;
    } else {
      ReadInvertsCode(v / 128, rest);
      assert bytes[1..] == Code(v / 128) + rest;
    }
  }

  /** A code is the number's seven-bit digits, lowest first, with the high bit on the last. */
  lemma {:induction false} CodeIsDigits(v: nat) returns (quotients: seq<nat>)
    ensures |quotients| == |Code(v)| && quotients[0] == v
    ensures forall i :: 0 <= i < |quotients| - 1 ==>
      && 128 <= quotients[i] && quotients[i + 1] == quotients[i] / 128
      && Code(v)[i] == quotients[i] % 128
    ensures var last := |quotients| - 1; quotients[last] < 128 && Code(v)[last] == quotients[last] + 128
  {
    if v < 128 {
      quotients := [v];
    } else {
      var rest := CodeIsDigits(v / 128);
      quotients := [v] + rest;
    }
  }

  /** Reading takes the bytes up to the first with the high bit, whatever the digits. */
  lemma {:induction false} ReadIsDigits(bytes: seq<Byte>, end: nat) returns (values: seq<nat>)
    requires end < |bytes| && 128 <= bytes[end] && forall i :: 0 <= i < end ==> bytes[i] < 128
    ensures |values| == end + 1 && values[end] == bytes[end] - 128
    ensures forall i :: 0 <= i < end ==> values[i] == bytes[i] + 128 * values[i + 1]
    ensures Read(bytes) == Got(values[0], bytes[end + 1..])
  {
    if end == 0 {
      values := [bytes[0] - 128];
    } else {
      var rest := ReadIsDigits(bytes[1..], end - 1);
      values := [bytes[0] + 128 * rest[0]] + rest;
    }
  }

  /** Without such a byte there is nothing to read. */
  lemma {:induction false} ReadWithoutEnd(bytes: seq<Byte>)
    ensures Read(bytes) == Ended <==> forall i :: 0 <= i < |bytes| ==> bytes[i] < 128
  {
    if bytes != [] {
      ReadWithoutEnd(bytes[1..]);
      assert forall i :: 0 < i < |bytes| ==> bytes[i] == bytes[1..][i - 1];
    }
  }

  /** The numbers of `n` seven-bit digits lie below this one. */
  function Power(n: nat): (r: nat)
    ensures 1 <= r
  {
    if n == 0 then 1 else 128 * Power(n - 1)
  }

  /** A number takes as many bytes as it has digits. */
  lemma {:induction false} CodeSize(v: nat, s: nat)
    requires 0 < s
    ensures |Code(v)| <= s <==> v < Power(s)
  {
    if 128 <= v {
      if s == 1 {
        assert Power(1) == 128 * Power(0);
      } else {
        CodeSize(v / 128, s - 1);
        assert v / 128 < Power(s - 1) <==> v < 128 * Power(s - 1);
      }
    }
  }

  /** Numbers below 2 to the 28th take up to four bytes each and other numbers more; no number
      of 64 bits takes more than ten. */
  lemma CodeSizes(v: nat)
    ensures |Code(v)| <= 4 <==> v < 0x1000_0000
    ensures v < 0x1_0000_0000_0000_0000 ==> |Code(v)| <= 10
  {
    assert Power(2) == 128 * Power(1) && Power(1) == 128 * Power(0);
    assert Power(4) == 128 * Power(3) && Power(3) == 128 * Power(2);
    assert Power(6) == 128 * Power(5) && Power(5) == 128 * Power(4);
    assert Power(8) == 128 * Power(7) && Power(7) == 128 * Power(6);
    assert Power(10) == 128 * Power(9) && Power(9) == 128 * Power(8);
    CodeSize(v, 4);
    CodeSize(v, 10);
  }

  lemma OneMore(s: nat, n: nat)
    ensures s * (n + 1) == s * n + s
  {
  }

  /** A list whose numbers take at most `s` bytes each takes at most `s` bytes for each. */
  lemma {:induction false} CodeAllSize(vs: seq<int>, s: nat)
    requires forall i :: 0 <= i < |vs| ==> |Code(AsSize(vs[i]))| <= s
    ensures |CodeAll(vs)| <= s * |vs|
  {
    hide Code, AsSize;
    if vs != [] {
      CodeAllSize(vs[1..], s);
      OneMore(s, |vs| - 1);
    }
  }

  lemma Regroup<T>(a: seq<T>, b: seq<T>, c: seq<T>)
    ensures (a + b) + c == a + (b + c)
  {
  }

  lemma {:induction false} CodeAllConcat(us: seq<int>, vs: seq<int>)
    ensures CodeAll(us + vs) == CodeAll(us) + CodeAll(vs)
  {
    hide Code, AsSize;
    if us == [] {
      assert us + vs == vs;
    } else {
      CodeAllConcat(us[1..], vs);
      assert (us + vs)[1..] == us[1..] + vs;
      Regroup(Code(AsSize(us[0])), CodeAll(us[1..]), CodeAll(vs));
    }
  }

  /** Bytes before the next number's code, the code, and what follows it. */
  lemma CodeAllAt(vs: seq<int>, i: nat)
    requires i < |vs|
    ensures CodeAll(vs[..i + 1]) == CodeAll(vs[..i]) + Code(AsSize(vs[i]))
    ensures |CodeAll(vs[..i + 1])| <= |CodeAll(vs)|
  {
    hide Code, AsSize;
    assert vs[..i + 1] == vs[..i] + [vs[i]] && vs == vs[..i + 1] + vs[i + 1..] && [vs[i]][1..] == [];
    assert CodeAll([vs[i]]) == Code(AsSize(vs[i])) + CodeAll([]);
    CodeAllConcat(vs[..i], [vs[i]]);
    CodeAllConcat(vs[..i + 1], vs[i + 1..]);
  }

  // ---- Encoding into a buffer ----

  /** The next byte of a code, and the code that is left. */
  lemma NextByte(done: seq<Byte>, v: nat, code: seq<Byte>, b: Byte)
    requires done + Code(v) == code
    requires b == v % 128 + if v < 128 then 128 else 0
    ensures |done| < |code|
    ensures if v < 128 then done + [b] == code else done + [b] + Code(v / 128) == code
  {
    if 128 <= v {
      assert Code(v) == [b] + Code(v / 128);
      Regroup(done, [b], Code(v / 128));
    }
  }

  /** Writes the code of a value at a place of the buffer. The program does not check the end
      of the buffer; it writes within it if and only if the code has room. */
  method Encode(value: int, buffer: array<Byte>, at: nat) returns (ok: bool, size: nat)
    requires at <= buffer.Length
    modifies buffer
    ensures buffer[..at] == old(buffer[..at])
    ensures ok <==> at + |Code(AsSize(value))| <= buffer.Length
    ensures ok ==> size == |Code(AsSize(value))| && buffer[at..at + size] == Code(AsSize(value))
  {
    hide AsSize, Code;
    var v: nat := AsSize(value);
    size := 0;
    while true
      invariant at + size <= buffer.Length && buffer[..at] == old(buffer[..at])
      invariant buffer[at..at + size] + Code(v) == Code(AsSize(value))
      decreases v
    {
      var lastByte := v < 128;
      var b: Byte := v % 128 + if lastByte then 128 else 0;
      ghost var done := buffer[at..at + size];
      NextByte(done, v, Code(AsSize(value)), b);
      if at + size == buffer.Length {
        return false, size;
      }
      buffer[at + size] := b;
      assert buffer[at..at + size + 1] == done + [b];
      size := size + 1;
      if lastByte {
        break;
      }
      v := v / 128;
    }
    ok := true;
  }

  lemma NoCode(vs: seq<int>)
    ensures CodeAll(vs[..0]) == []
  {
  }

  method EncodeAll(vs: seq<int>, buffer: array<Byte>) returns (ok: bool, size: nat)
    modifies buffer
    ensures ok <==> |CodeAll(vs)| <= buffer.Length
    ensures ok ==> size == |CodeAll(vs)| && buffer[..size] == CodeAll(vs)
  {
    hide Code, CodeAll, AsSize;
    size := 0;
    NoCode(vs);
    for i := 0 to |vs|
      invariant size <= buffer.Length && buffer[..size] == CodeAll(vs[..i])
    {
      CodeAllAt(vs, i);
      ghost var before := buffer[..size];
      var one;
      ok, one := Encode(vs[i], buffer, size);
      if !ok {
        return;
      }
      assert buffer[..size + one] == before + buffer[size..size + one];
      size := size + one;
    }
    assert vs[..|vs|] == vs;
    ok := true;
  }

  // ---- Differences ----

  ghost function Deltas(t: IntType, initial: int, vs: seq<int>): (r: seq<int>)
    requires t.Has(0) && t.Has(initial) && InType(t, vs)
    ensures |r| == |vs| && InType(t, r)
    decreases |vs|
  {
    if vs == [] then [] else [Minus(t, vs[0], initial)] + Deltas(t, vs[0], vs[1..])
  }

  /** The running sums that undo differences. */
  ghost function Sums(t: IntType, initial: int, ds: seq<int>): (r: seq<int>)
    requires t.Has(0) && t.Has(initial) && InType(t, ds)
    ensures |r| == |ds|
    decreases |ds|
  {
    if ds == [] then []
    else
      var v := Plus(t, ds[0], initial);
      [v] + Sums(t, v, ds[1..])
  }

  /** Adding up differences restores the values, whatever their order. */
  lemma {:induction false} SumsOfDeltas(t: IntType, initial: int, vs: seq<int>)
    requires t.Has(0) && t.Has(initial) && InType(t, vs)
    ensures Sums(t, initial, Deltas(t, initial, vs)) == vs
    decreases |vs|
  {
    if vs != [] {
      SumsOfDeltas(t, vs[0], vs[1..]);
      assert Deltas(t, initial, vs)[1..] == Deltas(t, vs[0], vs[1..]);
      assert Plus(t, Minus(t, vs[0], initial), initial) == vs[0];
    }
  }

  /** One difference. */
  lemma {:induction false} DeltaAt(t: IntType, initial: int, vs: seq<int>, i: nat)
    requires t.Has(0) && t.Has(initial) && InType(t, vs) && i < |vs|
    ensures Deltas(t, initial, vs)[i] == Minus(t, vs[i], if i == 0 then initial else vs[i - 1])
    decreases i
  {
    hide Minus;
    if 0 < i {
      DeltaAt(t, vs[0], vs[1..], i - 1);
    }
  }

  method DeltaEncode(t: IntType, vs: seq<int>, first: int, buffer: array<Byte>) returns (ok: bool, size: nat)
    requires t.Has(0) && t.Has(first) && InType(t, vs)
    modifies buffer
    ensures ok <==> |CodeAll(Deltas(t, first, vs))| <= buffer.Length
    ensures ok ==> size == |CodeAll(Deltas(t, first, vs))| && buffer[..size] == CodeAll(Deltas(t, first, vs))
  {
    hide Code, CodeAll, AsSize, Deltas, Minus;
    size := 0;
    var initial := first;
    ghost var ds := Deltas(t, first, vs);
    NoCode(ds);
    for i := 0 to |vs|
      invariant size <= buffer.Length && buffer[..size] == CodeAll(ds[..i])
      invariant initial == if i == 0 then first else vs[i - 1]
    {
      DeltaAt(t, first, vs, i);
      CodeAllAt(ds, i);
      ghost var before := buffer[..size];
      var one;
      ok, one := Encode(Minus(t, vs[i], initial), buffer, size);
      if !ok {
        return;
      }
      assert buffer[..size + one] == before + buffer[size..size + one];
      size := size + one;
      initial := vs[i];
    }
    assert ds[..|vs|] == ds;
    ok := true;
  }

  // ---- Decoding ----

  /** `v << 7 * i` */
  function Shift(v: nat, i: nat): nat {
    if i == 0 then v else 128 * Shift(v, i - 1)
  }

  lemma {:induction false} ShiftSplits(b: nat, v: nat, i: nat)
    ensures Shift(b + 128 * v, i) == Shift(b, i) + Shift(v, i + 1)
  {
    if 0 < i {
      ShiftSplits(b, v, i - 1);
    } else {
      assert Shift(v, 1) == 128 * Shift(v, 0);
    }
  }

  /** The seven low bits of a byte, in their place. */
  function Digit(b: Byte, i: nat): nat {
    Shift(b % 128, i)
  }

  lemma FirstDigit(b: Byte, higher: nat)
    ensures Digit(b, 0) == b % 128 && Shift(higher, 1) == 128 * higher
  {
    assert Shift(higher, 1) == 128 * Shift(higher, 0);
  }

  lemma LastByte(b: Byte)
    ensures b % 128 != b <==> 128 <= b
    ensures 128 <= b ==> b % 128 == b - 128
  {
  }

  /** What one more byte means: `n` and the digits to come, or all. */
  ghost predicate Reads(all: Decoded, n: nat, b: Byte, i: nat, rest: seq<Byte>) {
    if 128 <= b then all == Got(n, rest)
    else Read(rest).Got? && all == Got(n + Shift(Read(rest).value, i + 1), Read(rest).rest)
  }

  lemma ReadsFirst(bytes: seq<Byte>)
    requires Read(bytes).Got?
    ensures bytes != [] && Reads(Read(bytes), Digit(bytes[0], 0), bytes[0], 0, bytes[1..])
  {
    LastByte(bytes[0]);
    FirstDigit(bytes[0], if bytes[0] < 128 then Read(bytes[1..]).value else 0);
  }

  lemma ReadsNext(all: Decoded, n: nat, b: Byte, i: nat, rest: seq<Byte>)
    requires b < 128 && Reads(all, n, b, i, rest)
    ensures rest != [] && Reads(all, n + Digit(rest[0], i + 1), rest[0], i + 1, rest[1..])
  {
    hide Shift;
    var c := rest[0];
    LastByte(c);
    if c < 128 {
      ShiftSplits(c, Read(rest[1..]).value, i + 1);
    }
  }

  lemma ReadsLast(all: Decoded, n: nat, b: Byte, i: nat, rest: seq<Byte>)
    requires 128 <= b && Reads(all, n, b, i, rest)
    ensures all == Got(n, rest)
  {
  }

  /** Decodes one number at a place. Every digit stands above the ones before it, so that
      `n |= val << shift` adds it. */
  method Decode(bytes: seq<Byte>, at: nat) returns (n: nat, next: nat)
    requires at <= |bytes| && Read(bytes[at..]).Got?
    ensures next <= |bytes| && Read(bytes[at..]) == Got(n, bytes[next..])
  {
    hide Shift, Digit, Reads, Read;
    ghost var all := Read(bytes[at..]);
    ReadsFirst(bytes[at..]);
    var i: nat, b: Byte := 0, bytes[at];
    next := at + 1;
    n := Digit(b, i);
    assert bytes[at..][1..] == bytes[next..];
    LastByte(b);
    while b % 128 == b
      invariant at < next <= |bytes| && Reads(all, n, b, i, bytes[next..])
      invariant b % 128 != b <==> 128 <= b
      decreases |bytes| - next
    {
      ReadsNext(all, n, b, i, bytes[next..]);
      i := i + 1;
      b := bytes[next];
      next := next + 1;
      assert bytes[next - 1..][1..] == bytes[next..];
      LastByte(b);
      n := n + Digit(b, i);
    }
    ReadsLast(all, n, b, i, bytes[next..]);
  }

  lemma NextOf(bytes: seq<Byte>, vs: seq<int>, i: nat)
    requires i < |vs| && CodeAll(vs[i..]) <= bytes
    ensures var r := Read(bytes); r.Got? && r.value == AsSize(vs[i]) && CodeAll(vs[i + 1..]) <= r.rest
  {
    hide Code, Read, AsSize;
    var code, more := Code(AsSize(vs[i])), CodeAll(vs[i + 1..]);
    assert vs[i..][1..] == vs[i + 1..] && CodeAll(vs[i..]) == code + more;
    var tail := bytes[|code + more|..];
    assert bytes == code + (more + tail);
    ReadInvertsCode(AsSize(vs[i]), more + tail);
  }

  /** Decodes the first `n` values of a longer coded list. */
  method DecodeAll(t: IntType, bytes: seq<Byte>, at: nat, n: nat, ghost vs: seq<int>) returns (out: seq<int>)
    requires t.Valid() && InType(t, vs) && at <= |bytes| && CodeAll(vs) <= bytes[at..] && n <= |vs|
    ensures out == vs[..n]
  {
    hide Code, CodeAll, Read, AsSize, Narrow;
    out := [];
    var next: nat := at;
    assert vs[0..] == vs;
    for i := 0 to n
      invariant out == vs[..i] && next <= |bytes| && CodeAll(vs[i..]) <= bytes[next..]
    {
      var size;
      NextOf(bytes[next..], vs, i);
      NarrowBack(t, vs[i]);
      size, next := Decode(bytes, next);
      out := out + [Narrow(t, size)];
    }
  }

  lemma SumStep(t: IntType, initial: int, ds: seq<int>, vs: seq<int>, i: nat)
    requires t.Has(0) && t.Has(initial) && InType(t, ds) && i < |ds| == |vs|
    requires Sums(t, initial, ds[i..]) == vs[i..]
    ensures var v := Plus(t, ds[i], initial); v == vs[i] && Sums(t, v, ds[i + 1..]) == vs[i + 1..]
  {
    hide Plus;
    assert ds[i..][1..] == ds[i + 1..] && vs[i..][1..] == vs[i + 1..] && vs[i..][0] == vs[i];
    var v := Plus(t, ds[i], initial);
    assert ([v] + Sums(t, v, ds[i + 1..]))[1..] == Sums(t, v, ds[i + 1..]);
  }

  method DeltaDecode(t: IntType, bytes: seq<Byte>, at: nat, n: nat, first: int, ghost vs: seq<int>)
    returns (out: seq<int>)
    requires t.Valid() && t.Has(first) && InType(t, vs)
    requires at <= |bytes| && CodeAll(Deltas(t, first, vs)) <= bytes[at..] && n <= |vs|
    ensures out == vs[..n]
  {
    hide Code, CodeAll, Deltas, Read, Plus, Sums, AsSize, Narrow;
    ghost var ds := Deltas(t, first, vs);
    SumsOfDeltas(t, first, vs);
    out := [];
    var next: nat, initial := at, first;
    assert ds[0..] == ds && vs[0..] == vs;
    for i := 0 to n
      invariant next <= |bytes| && CodeAll(ds[i..]) <= bytes[next..] && t.Has(initial)
      invariant out == vs[..i] && Sums(t, initial, ds[i..]) == vs[i..]
    {
      var size;
      NextOf(bytes[next..], ds, i);
      NarrowBack(t, ds[i]);
      SumStep(t, initial, ds, vs, i);
      size, next := Decode(bytes, next);
      initial := Plus(t, Narrow(t, size), initial);
      out := out + [initial];
    }
  }
}
