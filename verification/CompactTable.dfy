/**
 The compact table: a header, one leader for each block of values, and the blocks, each a
 list of variable-byte numbers (or of differences).
 */
module CompactTable {
  import opened Options
  import opened VByte

  const WORD: nat := 0x1_0000_0000
  const HEADER_SIZE: nat := 12

  /** Where leader `i` stands, behind the header and the leaders before it. */
  function LeaderPlace(i: nat): nat {
    HEADER_SIZE + 8 * i
  }

  /** A number in 32 bits. */
  function Wrapped(v: nat): (r: nat)
    ensures v < WORD ==> r == v
    ensures WORD <= v < 2 * WORD ==> r == v - WORD
  {
    v % 0x1_0000_0000
  }

  // ---- Unsigned 32-bit integers in memory ----

  function WordBytes(v: nat): (r: seq<Byte>)
    ensures |r| == 4
  {
    var w := v / 0x100;
    var y := w / 0x100;
    var z := y / 0x100;
    [v % 0x100, w % 0x100, y % 0x100, z % 0x100]
  }

  function WordAt(bytes: seq<Byte>, at: nat): (r: nat)
    requires at + 4 <= |bytes|
    ensures r < WORD
  {
    (bytes[at] as int) + 0x100 * (bytes[at + 1] as int)
    + 0x1_0000 * (bytes[at + 2] as int) + 0x100_0000 * (bytes[at + 3] as int)
  }

  /** The four bytes, lowest first. */
  lemma WordBytesAre(v: nat)
    requires v < WORD
    ensures var r := WordBytes(v);
      v == (r[0] as int) + 0x100 * (r[1] as int) + 0x1_0000 * (r[2] as int) + 0x100_0000 * (r[3] as int)
  {
    assert v == v % 0x100 + 0x100 * (v / 0x100);
  }

  lemma WordRoundTrip(before: seq<Byte>, v: nat, after: seq<Byte>)
    requires v < WORD
    ensures WordAt(before + WordBytes(v) + after, |before|) == v
  {
    var bytes, w := before + WordBytes(v) + after, WordBytes(v);
    assert bytes[|before|] == w[0] && bytes[|before| + 1] == w[1] && bytes[|before| + 2] == w[2]
        && bytes[|before| + 3] == w[3];
    assert v == v % 0x100 + 0x100 * (v / 0x100);
  }

  // ---- Blocks of values ----

  /** `(count + block_size - 1) / block_size` in 32 bits */
  function BlockCount(count: nat, blockSize: nat): nat
    requires 0 < blockSize
  {
    Wrapped(count + blockSize - 1) / blockSize
  }

  function Start(b: nat, blockSize: nat): nat {
    b * blockSize
  }

  function End(b: nat, blockSize: nat, count: nat): nat {
    if Start(b, blockSize) + blockSize <= count then Start(b, blockSize) + blockSize else count
  }

  lemma StartNext(b: nat, blockSize: nat)
    ensures Start(b + 1, blockSize) == Start(b, blockSize) + blockSize && Start(0, blockSize) == 0
  {
  }

  lemma {:induction false} StartMonotone(a: nat, b: nat, blockSize: nat)
    requires a <= b
    ensures Start(a, blockSize) <= Start(b, blockSize)
    ensures a < b ==> Start(a, blockSize) + blockSize <= Start(b, blockSize)
    decreases b - a
  {
    hide Start;
    if a < b {
      StartNext(a, blockSize);
      StartMonotone(a + 1, b, blockSize);
    }
  }

  /** The blocks cover the values exactly when the rounding sum does not wrap around; when it
      wraps, there are no blocks at all. */
  lemma BlocksCover(count: nat, blockSize: nat)
    requires 0 < blockSize < WORD && count < WORD
    ensures var n := BlockCount(count, blockSize);
      count + blockSize <= WORD ==>
        && count <= Start(n, blockSize)
        && (forall b :: 0 <= b < n ==> Start(b, blockSize) < count)
    ensures WORD < count + blockSize ==> BlockCount(count, blockSize) == 0 && 0 < count
  {
    if count + blockSize <= WORD {
      var sum, n := count + blockSize - 1, BlockCount(count, blockSize);
      assert n == sum / blockSize;
      assert sum == n * blockSize + sum % blockSize;
      forall b | 0 <= b < n ensures Start(b, blockSize) < count {
        StartMonotone(b, n, blockSize);
      }
    } else {
      assert Wrapped(count + blockSize - 1) == count + blockSize - 1 - WORD < blockSize;
    }
  }

  /** Two values in blocks of the largest size: the sum wraps around to zero. */
  lemma BlocksLost()
    ensures BlockCount(2, 0xFFFF_FFFF) == 0
  {
    BlocksCover(2, 0xFFFF_FFFF);
  }

  /** The values of block `b`. */
  function BlockValues(values: seq<int>, b: nat, blockSize: nat): (r: seq<int>) {
    if Start(b, blockSize) <= |values| then values[Start(b, blockSize)..End(b, blockSize, |values|)] else []
  }

  /** A block takes a full block of values from its start, or those that are left. */
  lemma BlockPart(values: seq<int>, b: nat, blockSize: nat)
    ensures |values| < Start(b, blockSize) ==> BlockValues(values, b, blockSize) == []
    ensures Start(b, blockSize) <= |values| ==>
      (var left := |values| - Start(b, blockSize);
       |BlockValues(values, b, blockSize)| == if blockSize <= left then blockSize else left)
    ensures forall i :: 0 <= i < |BlockValues(values, b, blockSize)| ==>
      BlockValues(values, b, blockSize)[i] == values[Start(b, blockSize) + i]
  {
    hide Start;
  }

  /** What is coded of a block: its values or their wrapped differences. */
  ghost function Numbers(t: IntType, delta: bool, vs: seq<int>): seq<int>
    requires t.Valid() && InType(t, vs)
  {
    if delta then Deltas(t, 0, vs) else vs
  }

  /** The bytes of a block. */
  ghost function BlockBytes(t: IntType, delta: bool, vs: seq<int>): seq<Byte>
    requires t.Valid() && InType(t, vs)
  {
    CodeAll(Numbers(t, delta, vs))
  }

  datatype Leader = Leader(key: nat, ptr: nat)

  function LeaderAt(data: seq<Byte>, i: nat): Leader
    requires LeaderPlace(i + 1) <= |data|
  {
    var at := LeaderPlace(i);
    Leader(WordAt(data, at), WordAt(data, at + 4))
  }

  ghost predicate Stands(data: seq<Byte>, at: nat, code: seq<Byte>) {
    at + |code| <= |data| && data[at..at + |code|] == code
  }

  /** A leader starts its block's values and points to its block's bytes. */
  ghost predicate Leads(data: seq<Byte>, l: Leader, b: nat, values: seq<int>, blockSize: nat, t: IntType, delta: bool)
    requires t.Valid() && InType(t, values)
  {
    && l.key == Start(b, blockSize) < |values|
    && Stands(data, l.ptr, BlockBytes(t, delta, BlockValues(values, b, blockSize)))
  }

  /** The table's bytes hold the values. */
  ghost predicate Holds(data: seq<Byte>, values: seq<int>, blockSize: nat, t: IntType, delta: bool) {
    && t.Valid() && InType(t, values) && 0 < blockSize < WORD && |values| + blockSize <= WORD
    && var n := BlockCount(|values|, blockSize);
    && LeaderPlace(n) <= |data|
    && WordAt(data, 0) == |values| && WordAt(data, 4) == blockSize
    && (WordAt(data, 8) % 2 == 1 <==> delta)
    && forall b :: 0 <= b < n ==> Leads(data, LeaderAt(data, b), b, values, blockSize, t, delta)
  }

  // ---- Reading ----

  /** The first leader whose key is at least `key`. */
  method LowerBound(data: seq<Byte>, count: nat, key: nat) returns (i: nat)
    requires LeaderPlace(count) <= |data|
    requires forall a, b :: 0 <= a < b < count ==> LeaderAt(data, a).key < LeaderAt(data, b).key
    ensures i <= count && (0 < i ==> LeaderAt(data, i - 1).key < key)
    ensures i < count ==> key <= LeaderAt(data, i).key
  {
    hide LeaderAt;
    i := 0;
    var hi := count;
    while i < hi
      invariant 0 <= i <= hi <= count
      invariant 0 < i ==> LeaderAt(data, i - 1).key < key
      invariant hi < count ==> key <= LeaderAt(data, hi).key
    {
      var mid := (i + hi) / 2;
      if LeaderAt(data, mid).key < key {
        i := mid + 1;
      } else {
        hi := mid;
      }
    }
  }

  lemma LeaderOf(data: seq<Byte>, values: seq<int>, blockSize: nat, t: IntType, delta: bool, i: nat)
    requires Holds(data, values, blockSize, t, delta) && i < BlockCount(|values|, blockSize)
    ensures var l := LeaderAt(data, i); var vs := BlockValues(values, i, blockSize);
      && l.key == Start(i, blockSize) && InType(t, vs)
      && Stands(data, l.ptr, BlockBytes(t, delta, vs))
  {
    assert Leads(data, LeaderAt(data, i), i, values, blockSize, t, delta);
  }

  lemma Chosen(count: nat, blockSize: nat, n: nat, i: nat, key: nat)
    requires key < count <= Start(n, blockSize) && i <= n && 0 < blockSize
    requires (0 < i ==> Start(i - 1, blockSize) < key) && (i < n ==> key <= Start(i, blockSize))
    ensures i == n ==> 0 < i
    ensures var back := i == n || key < Start(i, blockSize);
      && (back ==> 0 < i && Start(i - 1, blockSize) <= key < Start(i - 1, blockSize) + blockSize)
      && (!back ==> Start(i, blockSize) <= key < Start(i, blockSize) + blockSize)
  {
    StartNext(0, blockSize);
    if 0 < i {
      StartNext(i - 1, blockSize);
    }
  }

  lemma KeysRise(data: seq<Byte>, values: seq<int>, blockSize: nat, t: IntType, delta: bool)
    requires Holds(data, values, blockSize, t, delta)
    ensures var n := BlockCount(|values|, blockSize);
      && (forall b :: 0 <= b < n ==> LeaderAt(data, b).key == Start(b, blockSize))
      && forall a, b :: 0 <= a < b < n ==> LeaderAt(data, a).key < LeaderAt(data, b).key
  {
    hide LeaderAt, WordAt, Start, BlockCount, BlockBytes;
    var n := BlockCount(|values|, blockSize);
    forall b | 0 <= b < n ensures LeaderAt(data, b).key == Start(b, blockSize) {
      assert Leads(data, LeaderAt(data, b), b, values, blockSize, t, delta);
    }
    forall a, b | 0 <= a < b < n ensures LeaderAt(data, a).key < LeaderAt(data, b).key {
      StartMonotone(a, b, blockSize);
    }
  }

  /** The leader of the block that holds a key: `lower_bound`, and one back if it overshot. */
  method SeekLeader(data: seq<Byte>, key: nat, ghost values: seq<int>, ghost blockSize: nat, ghost t: IntType,
                    ghost delta: bool) returns (i: nat)
    requires Holds(data, values, blockSize, t, delta) && key < |values|
    ensures i < BlockCount(|values|, blockSize)
    ensures Start(i, blockSize) <= key < Start(i, blockSize) + blockSize && Start(i, blockSize) <= |values|
  {
    hide Leads, InType, Start, LeaderAt, WordAt, BlockCount;
    KeysRise(data, values, blockSize, t, delta);
    BlocksCover(|values|, blockSize);
    var leaderCount := BlockCount(WordAt(data, 0), WordAt(data, 4));
    i := LowerBound(data, leaderCount, key);
    Chosen(|values|, blockSize, leaderCount, i, key);
    if i == leaderCount || key < LeaderAt(data, i).key {
      i := i - 1;
    }
  }

  lemma StandsPrefix(data: seq<Byte>, at: nat, code: seq<Byte>)
    requires Stands(data, at, code)
    ensures at <= |data| && code <= data[at..]
  {
    assert data[at..][..|code|] == code;
  }

  method DecodeBlock(data: seq<Byte>, at: nat, n: nat, t: IntType, delta: bool, ghost vs: seq<int>)
    returns (decoded: seq<int>)
    requires t.Valid() && InType(t, vs) && n <= |vs| && Stands(data, at, BlockBytes(t, delta, vs))
    ensures decoded == vs[..n]
  {
    StandsPrefix(data, at, BlockBytes(t, delta, vs));
    if delta {
      decoded := DeltaDecode(t, data, at, n, 0, vs);
    } else {
      decoded := DecodeAll(t, data, at, n, vs);
    }
  }

  lemma WithinBlock(values: seq<int>, b: nat, blockSize: nat, key: nat)
    requires Start(b, blockSize) <= key < |values| && key < Start(b, blockSize) + blockSize
    ensures var vs := BlockValues(values, b, blockSize); var skip := key - Start(b, blockSize);
      skip < |vs| && vs[..skip + 1][skip] == values[key]
  {
  }

  /** The value stored at a key below the count. */
  method ReadCompactValue(data: seq<Byte>, key: nat, t: IntType, ghost values: seq<int>, ghost blockSize: nat,
                          ghost delta: bool) returns (v: int)
    requires Holds(data, values, blockSize, t, delta) && key < |values|
    ensures v == values[key]
  {
    hide Leads, BlockBytes, BlockValues, InType, Start, LeaderAt, WordAt;
    var deltaEncoded := WordAt(data, 8) % 2 == 1;
    var i := SeekLeader(data, key, values, blockSize, t, delta);
    var leader := LeaderAt(data, i);
    ghost var vs := BlockValues(values, i, blockSize);
    LeaderOf(data, values, blockSize, t, delta, i);
    WithinBlock(values, i, blockSize, key);
    var skip := key - leader.key;
    var decoded := DecodeBlock(data, leader.ptr, skip + 1, t, deltaEncoded, vs);
    v := decoded[|decoded| - 1];
  }

  // ---- Building ----

  /** The bytes of the first `n` blocks. */
  ghost function Blocks(values: seq<int>, blockSize: nat, t: IntType, delta: bool, n: nat): seq<Byte>
    requires t.Valid() && InType(t, values)
  {
    if n == 0 then []
    else Blocks(values, blockSize, t, delta, n - 1)
         + BlockBytes(t, delta, BlockValues(values, n - 1, blockSize))
  }

  lemma BlockInType(values: seq<int>, blockSize: nat, t: IntType, b: nat)
    requires InType(t, values)
    ensures InType(t, BlockValues(values, b, blockSize))
  {
  }

  lemma StandsLonger(data: seq<Byte>, more: seq<Byte>, at: nat, code: seq<Byte>)
    requires Stands(data, at, code)
    ensures Stands(data + more, at, code)
  {
  }

  lemma StandsLast(data: seq<Byte>, code: seq<Byte>)
    ensures Stands(data + code, |data|, code)
  {
  }

  /** Every block's bytes stand where the blocks before it end. */
  lemma {:induction false} BlocksStand(values: seq<int>, blockSize: nat, t: IntType, delta: bool, b: nat, n: nat)
    requires t.Valid() && InType(t, values) && b < n
    ensures InType(t, BlockValues(values, b, blockSize))
    ensures Stands(Blocks(values, blockSize, t, delta, n), |Blocks(values, blockSize, t, delta, b)|,
                   BlockBytes(t, delta, BlockValues(values, b, blockSize)))
    ensures |Blocks(values, blockSize, t, delta, b)| <= |Blocks(values, blockSize, t, delta, n)|
    decreases n
  {
    hide BlockBytes, BlockValues, InType, Stands;
    BlockInType(values, blockSize, t, b);
    BlockInType(values, blockSize, t, n - 1);
    var last := BlockBytes(t, delta, BlockValues(values, n - 1, blockSize));
    if b < n - 1 {
      BlocksStand(values, blockSize, t, delta, b, n - 1);
      StandsLonger(Blocks(values, blockSize, t, delta, n - 1), last, |Blocks(values, blockSize, t, delta, b)|,
                   BlockBytes(t, delta, BlockValues(values, b, blockSize)));
    } else {
      StandsLast(Blocks(values, blockSize, t, delta, b), last);
    }
  }

  lemma StandsBehind(front: seq<Byte>, data: seq<Byte>, at: nat, code: seq<Byte>)
    requires Stands(data, at, code)
    ensures Stands(front + data, |front| + at, code)
  {
    assert (front + data)[|front| + at..|front| + at + |code|] == data[at..at + |code|];
  }

  /** The bytes of a list of leaders. */
  function LeaderBytes(leaders: seq<Leader>): (r: seq<Byte>)
    ensures |r| == 8 * |leaders|
  {
    if leaders == [] then []
    else
      var last := leaders[|leaders| - 1];
      LeaderBytes(leaders[..|leaders| - 1]) + WordBytes(last.key) + WordBytes(last.ptr)
  }

  lemma {:induction false} LeaderRoundTrip(header: seq<Byte>, leaders: seq<Leader>, rest: seq<Byte>, i: nat)
    requires |header| == HEADER_SIZE && i < |leaders| && leaders[i].key < WORD && leaders[i].ptr < WORD
    ensures LeaderAt(header + LeaderBytes(leaders) + rest, i) == leaders[i]
    decreases |leaders|
  {
    hide WordBytes, WordAt;
    var m := |leaders| - 1;
    var init, last := LeaderBytes(leaders[..m]), leaders[m];
    var data := header + LeaderBytes(leaders) + rest;
    if i == m {
      assert data == (header + init) + WordBytes(last.key) + (WordBytes(last.ptr) + rest);
      WordRoundTrip(header + init, last.key, WordBytes(last.ptr) + rest);
      assert data == (header + init + WordBytes(last.key)) + WordBytes(last.ptr) + rest;
      WordRoundTrip(header + init + WordBytes(last.key), last.ptr, rest);
    } else {
      var more := WordBytes(last.key) + WordBytes(last.ptr) + rest;
      assert data == header + init + more;
      LeaderRoundTrip(header, leaders[..m], more, i);
    }
  }

  function Header(count: nat, blockSize: nat, delta: bool): (r: seq<Byte>)
    ensures |r| == HEADER_SIZE
  {
    WordBytes(count) + WordBytes(blockSize) + WordBytes(if delta then 1 else 0)
  }

  lemma HeaderRoundTrip(count: nat, blockSize: nat, delta: bool, rest: seq<Byte>)
    requires count < WORD && blockSize < WORD
    ensures var data := Header(count, blockSize, delta) + rest;
      WordAt(data, 0) == count && WordAt(data, 4) == blockSize && WordAt(data, 8) == if delta then 1 else 0
  {
    hide WordBytes, WordAt;
    var data, a, b, c := Header(count, blockSize, delta) + rest, WordBytes(count), WordBytes(blockSize),
      WordBytes(if delta then 1 else 0);
    assert data == [] + a + (b + c + rest) && data == a + b + (c + rest) && data == (a + b) + c + rest;
    WordRoundTrip([], count, b + c + rest);
    WordRoundTrip(a, blockSize, c + rest);
    WordRoundTrip(a + b, if delta then 1 else 0, rest);
  }

  /** `encode` and `delta_encode` of a range: a buffer of the codec's bound for that many
      values, cut to what was written. Nothing results when a code would leave the buffer. */
  method EncodeBlock(vs: seq<int>, t: IntType, delta: bool, maxSize: nat -> nat) returns (r: Option<seq<Byte>>)
    requires t.Valid() && InType(t, vs)
    ensures r.Some? <==> |BlockBytes(t, delta, vs)| <= maxSize(|vs|)
    ensures r.Some? ==> r.value == BlockBytes(t, delta, vs)
    ensures r.Some? ==> r.value == CodeAll(if delta then Deltas(t, 0, vs) else vs)
  {
    hide CodeAll, Deltas;
    var buffer := new Byte[maxSize(|vs|)](_ => 0);
    var ok, size;
    if delta {
      ok, size := DeltaEncode(t, vs, 0, buffer);
    } else {
      ok, size := EncodeAll(vs, buffer);
    }
    r := if ok then Some(buffer[..size]) else None;
  }

  /** The leaders the builder makes. */
  ghost predicate LeadersOf(leaders: seq<Leader>, offset: nat, values: seq<int>, blockSize: nat, t: IntType,
                            delta: bool)
    requires t.Valid() && InType(t, values)
  {
    forall b :: 0 <= b < |leaders| ==>
      leaders[b] == Leader(Start(b, blockSize), Wrapped(offset + |Blocks(values, blockSize, t, delta, b)|))
  }

  function Least(a: nat, b: nat): nat {
    if a < b then a else b
  }

  lemma NoWrap(values: seq<int>, blockSize: nat, b: nat)
    requires 0 < blockSize < WORD && |values| + blockSize <= WORD && Start(b, blockSize) < |values|
    ensures var beg := Start(b, blockSize);
      && Wrapped(beg) == beg && beg <= Least(Wrapped(beg + blockSize), |values|) <= |values|
      && values[beg..Least(Wrapped(beg + blockSize), |values|)] == BlockValues(values, b, blockSize)
  {
  }

  lemma NoLeaders(offset: nat, values: seq<int>, blockSize: nat, t: IntType, delta: bool)
    requires t.Valid() && InType(t, values)
    ensures LeadersOf([], offset, values, blockSize, t, delta)
    ensures Blocks(values, blockSize, t, delta, 0) == [] && LeaderBytes([]) == []
  {
  }

  lemma BlocksNext(values: seq<int>, blockSize: nat, t: IntType, delta: bool, b: nat)
    requires t.Valid() && InType(t, values)
    ensures InType(t, BlockValues(values, b, blockSize))
    ensures Blocks(values, blockSize, t, delta, b + 1) == Blocks(values, blockSize, t, delta, b)
            + BlockBytes(t, delta, BlockValues(values, b, blockSize))
  {
    hide BlockBytes, Start;
  }

  lemma LeadersNext(leaders: seq<Leader>, offset: nat, values: seq<int>, blockSize: nat, t: IntType, delta: bool)
    requires t.Valid() && InType(t, values) && LeadersOf(leaders, offset, values, blockSize, t, delta)
    ensures var b := |leaders|;
      var next := Leader(Start(b, blockSize), Wrapped(offset + |Blocks(values, blockSize, t, delta, b)|));
      LeadersOf(leaders + [next], offset, values, blockSize, t, delta)
  {
    hide Blocks, Start, InType;
  }

  lemma LeadsThere(front: seq<Byte>, values: seq<int>, blockSize: nat, t: IntType, delta: bool, b: nat, n: nat)
    requires t.Valid() && InType(t, values) && b < n && Start(b, blockSize) < |values|
    ensures var l := Leader(Start(b, blockSize), |front| + |Blocks(values, blockSize, t, delta, b)|);
      Leads(front + Blocks(values, blockSize, t, delta, n), l, b, values, blockSize, t, delta)
  {
    hide BlockBytes, BlockValues, InType, Blocks, Start, Stands;
    BlockInType(values, blockSize, t, b);
    BlocksStand(values, blockSize, t, delta, b, n);
    StandsBehind(front, Blocks(values, blockSize, t, delta, n), |Blocks(values, blockSize, t, delta, b)|,
                 BlockBytes(t, delta, BlockValues(values, b, blockSize)));
  }

  lemma Built(data: seq<Byte>, leaders: seq<Leader>, values: seq<int>, blockSize: nat, t: IntType, delta: bool)
    requires t.Valid() && InType(t, values) && 0 < blockSize < WORD && |values| + blockSize <= WORD
    requires var n := BlockCount(|values|, blockSize);
      && |leaders| == n && |data| < WORD
      && LeadersOf(leaders, LeaderPlace(n), values, blockSize, t, delta)
      && data == Header(|values|, blockSize, delta) + LeaderBytes(leaders) + Blocks(values, blockSize, t, delta, n)
    ensures Holds(data, values, blockSize, t, delta)
  {
    hide BlockCount, Start, Header, LeaderBytes, LeaderAt, BlockBytes, BlockValues, InType, Blocks, Leads, WordAt,
      Wrapped;
    var n := BlockCount(|values|, blockSize);
    var header, blocks := Header(|values|, blockSize, delta), Blocks(values, blockSize, t, delta, n);
    BlocksCover(|values|, blockSize);
    HeaderRoundTrip(|values|, blockSize, delta, LeaderBytes(leaders) + blocks);
    assert data == header + (LeaderBytes(leaders) + blocks);
    forall b | 0 <= b < n ensures Leads(data, LeaderAt(data, b), b, values, blockSize, t, delta) {
      BlocksStand(values, blockSize, t, delta, b, n);
      LeaderRoundTrip(header, leaders, blocks, b);
      LeadsThere(header + LeaderBytes(leaders), values, blockSize, t, delta, b, n);
    }
  }

  lemma OffsetOf(v: nat, size: nat)
    requires v <= size < WORD
    ensures Wrapped(v) == v
  {
  }

  /** The blocks lie side by side behind the leaders, which give their first positions and
      their places. */
  lemma Places(data: seq<Byte>, leaders: seq<Leader>, values: seq<int>, blockSize: nat, t: IntType, delta: bool)
    requires t.Valid() && InType(t, values) && 0 < blockSize < WORD && |values| + blockSize <= WORD
    requires var n := BlockCount(|values|, blockSize);
      && |leaders| == n && |data| < WORD
      && LeadersOf(leaders, LeaderPlace(n), values, blockSize, t, delta)
      && data == Header(|values|, blockSize, delta) + LeaderBytes(leaders) + Blocks(values, blockSize, t, delta, n)
    ensures var n := BlockCount(|values|, blockSize);
      && 12 + 8 * n <= |data| && data[12 + 8 * n..] == Blocks(values, blockSize, t, delta, n)
      && WordAt(data, 0) == |values| && WordAt(data, 4) == blockSize && WordAt(data, 8) == (if delta then 1 else 0)
      && forall b :: 0 <= b < n ==>
           && WordAt(data, 12 + 8 * b) == Start(b, blockSize)
           && WordAt(data, 16 + 8 * b) == 12 + 8 * n + |Blocks(values, blockSize, t, delta, b)|
  {
    hide BlockCount, Start, Header, LeaderBytes, BlockBytes, BlockValues, InType, Blocks, WordAt, Wrapped;
    var n := BlockCount(|values|, blockSize);
    var header, blocks := Header(|values|, blockSize, delta), Blocks(values, blockSize, t, delta, n);
    HeaderRoundTrip(|values|, blockSize, delta, LeaderBytes(leaders) + blocks);
    assert data == header + (LeaderBytes(leaders) + blocks);
    BlocksCover(|values|, blockSize);
    forall b | 0 <= b < n
      ensures WordAt(data, 12 + 8 * b) == Start(b, blockSize)
      ensures WordAt(data, 16 + 8 * b) == 12 + 8 * n + |Blocks(values, blockSize, t, delta, b)|
    {
      BlocksStand(values, blockSize, t, delta, b, n);
      OffsetOf(12 + 8 * n + |Blocks(values, blockSize, t, delta, b)|, |data|);
      LeaderRoundTrip(header, leaders, blocks, b);
    }
  }

  ghost predicate BlockFits(values: seq<int>, blockSize: nat, t: IntType, delta: bool, maxSize: nat -> nat, b: nat)
    requires t.Valid() && InType(t, values)
  {
    BlockInType(values, blockSize, t, b);
    var vs := BlockValues(values, b, blockSize);
    |BlockBytes(t, delta, vs)| <= maxSize(|vs|)
  }

  /** Every block's code has room in the buffer of the codec's bound for its length. */
  ghost predicate AllFit(values: seq<int>, blockSize: nat, t: IntType, delta: bool, maxSize: nat -> nat, n: nat)
    requires t.Valid() && InType(t, values)
  {
    forall b :: 0 <= b < n ==> BlockFits(values, blockSize, t, delta, maxSize, b)
  }

  lemma FitsExactly(values: seq<int>, blockSize: nat, t: IntType, delta: bool, maxSize: nat -> nat, b: nat)
    requires t.Valid() && InType(t, values)
    ensures InType(t, BlockValues(values, b, blockSize))
    ensures BlockFits(values, blockSize, t, delta, maxSize, b)
       <==> |BlockBytes(t, delta, BlockValues(values, b, blockSize))| <= maxSize(|BlockValues(values, b, blockSize)|)
  {
    BlockInType(values, blockSize, t, b);
  }

  /** Builds the table of values of an integer type, with the codec's bound on the size of
      coded blocks. All writes stay in their buffers if and only if every block has room. Then
      the table holds the values, if its offsets have 32 bits; a block size so large that the
      rounding sum wraps around makes a table without blocks. */
  method BuildCompactTable(values: seq<int>, t: IntType, delta: bool, blockSize: nat, maxSize: nat -> nat)
    returns (r: Option<seq<Byte>>)
    requires t.Valid() && InType(t, values) && 0 < blockSize < WORD && |values| < WORD
    ensures r.Some? <==> AllFit(values, blockSize, t, delta, maxSize, BlockCount(|values|, blockSize))
    ensures r.Some? && |values| + blockSize <= WORD && |r.value| < WORD ==>
      && Holds(r.value, values, blockSize, t, delta)
      && WordAt(r.value, 0) == |values| && WordAt(r.value, 4) == blockSize
      && WordAt(r.value, 8) == (if delta then 1 else 0)
      && var n := BlockCount(|values|, blockSize);
      && 12 + 8 * n <= |r.value| && r.value[12 + 8 * n..] == Blocks(values, blockSize, t, delta, n)
      && forall b :: 0 <= b < n ==>
           && WordAt(r.value, 12 + 8 * b) == Start(b, blockSize)
           && WordAt(r.value, 16 + 8 * b) == 12 + 8 * n + |Blocks(values, blockSize, t, delta, b)|
    ensures WORD < |values| + blockSize ==> values != [] && r == Some(Header(|values|, blockSize, delta))
  {
    hide BlockCount, Start, Header, LeaderBytes, BlockBytes, BlockValues, InType, Blocks, Holds, LeadersOf, Wrapped,
      BlockFits;
    BlocksCover(|values|, blockSize);
    var count := BlockCount(|values|, blockSize);
    var offset := LeaderPlace(count);
    NoLeaders(offset, values, blockSize, t, delta);
    var blocks: seq<Byte>, leaders: seq<Leader> := [], [];
    for block := 0 to count
      invariant |leaders| == block && LeadersOf(leaders, offset, values, blockSize, t, delta)
      invariant blocks == Blocks(values, blockSize, t, delta, block)
      invariant AllFit(values, blockSize, t, delta, maxSize, block)
    {
      NoWrap(values, blockSize, block);
      BlocksNext(values, blockSize, t, delta, block);
      LeadersNext(leaders, offset, values, blockSize, t, delta);
      FitsExactly(values, blockSize, t, delta, maxSize, block);
      var beg := Wrapped(Start(block, blockSize));
      var end := Least(Wrapped(beg + blockSize), |values|);
      leaders := leaders + [Leader(beg, Wrapped(offset + |blocks|))];
      var encoded := EncodeBlock(values[beg..end], t, delta, maxSize);
      if encoded == None {
        return None;
      }
      blocks := blocks + encoded.value;
    }
    var data := Header(|values|, blockSize, delta) + LeaderBytes(leaders) + blocks;
    if count == 0 {
      assert leaders == [] && blocks == [];
      assert LeaderBytes(leaders) == [];
      assert data == Header(|values|, blockSize, delta);
    }
    if |values| + blockSize <= WORD && |data| < WORD {
      Built(data, leaders, values, blockSize, t, delta);
      Places(data, leaders, values, blockSize, t, delta);
    }
    r := Some(data);
  }

  lemma AtMostTen(vs: seq<int>)
    ensures |CodeAll(vs)| <= 10 * |vs|
  {
    forall i | 0 <= i < |vs| ensures |Code(AsSize(vs[i]))| <= 10 {
      CodeSizes(AsSize(vs[i]));
    }
    CodeAllSize(vs, 10);
  }

  /** With room for ten bytes a value every block has room. */
  lemma TenBytesFit(values: seq<int>, blockSize: nat, t: IntType, delta: bool, maxSize: nat -> nat, n: nat)
    requires t.Valid() && InType(t, values) && forall k: nat :: 10 * k <= maxSize(k)
    ensures AllFit(values, blockSize, t, delta, maxSize, n)
  {
    forall b | 0 <= b < n ensures BlockFits(values, blockSize, t, delta, maxSize, b) {
      var vs := BlockValues(values, b, blockSize);
      FitsExactly(values, blockSize, t, delta, maxSize, b);
      AtMostTen(Numbers(t, delta, vs));
    }
  }

  /** Every number coded in the block has at most 28 bits. */
  ghost predicate BlockSmall(values: seq<int>, blockSize: nat, t: IntType, delta: bool, b: nat)
    requires t.Valid() && InType(t, values)
  {
    BlockInType(values, blockSize, t, b);
    var numbers := Numbers(t, delta, BlockValues(values, b, blockSize));
    forall i :: 0 <= i < |numbers| ==> AsSize(numbers[i]) < 0x1000_0000
  }

  lemma AtMostFour(vs: seq<int>)
    requires forall i :: 0 <= i < |vs| ==> AsSize(vs[i]) < 0x1000_0000
    ensures |CodeAll(vs)| <= 4 * |vs|
  {
    forall i | 0 <= i < |vs| ensures |Code(AsSize(vs[i]))| <= 4 {
      CodeSizes(AsSize(vs[i]));
    }
    CodeAllSize(vs, 4);
  }

  /** With room for four bytes a value every block of 28-bit numbers has room. */
  lemma FourBytesFit(values: seq<int>, blockSize: nat, t: IntType, delta: bool, maxSize: nat -> nat, n: nat)
    requires t.Valid() && InType(t, values) && forall k: nat :: 4 * k <= maxSize(k)
    requires forall b :: 0 <= b < n ==> BlockSmall(values, blockSize, t, delta, b)
    ensures AllFit(values, blockSize, t, delta, maxSize, n)
  {
    forall b | 0 <= b < n ensures BlockFits(values, blockSize, t, delta, maxSize, b) {
      var vs := BlockValues(values, b, blockSize);
      assert BlockSmall(values, blockSize, t, delta, b);
      FitsExactly(values, blockSize, t, delta, maxSize, b);
      AtMostFour(Numbers(t, delta, vs));
    }
  }

  lemma {:induction false} RisingDeltas(t: IntType, initial: int, vs: seq<int>)
    requires t.Valid() && t.Has(initial) && InType(t, vs) && 0 <= initial
    requires forall i :: 0 <= i < |vs| ==> initial <= vs[i] < 0x1000_0000
    requires forall i, j :: 0 <= i < j < |vs| ==> vs[i] <= vs[j]
    ensures forall i :: 0 <= i < |vs| ==> 0 <= Deltas(t, initial, vs)[i] < 0x1000_0000
    decreases |vs|
  {
    if vs != [] {
      RisingDeltas(t, vs[0], vs[1..]);
      assert Deltas(t, initial, vs) == [Minus(t, vs[0], initial)] + Deltas(t, vs[0], vs[1..]);
    }
  }

  lemma SmallAsSize(v: int)
    requires 0 <= v < 0x1000_0000
    ensures AsSize(v) < 0x1000_0000
  {
  }

  lemma SmallNumbers(values: seq<int>, blockSize: nat, t: IntType, delta: bool, b: nat)
    requires t.Valid() && InType(t, values)
    requires forall i :: 0 <= i < |values| ==> 0 <= values[i] < 0x1000_0000
    requires delta ==> forall i, j :: 0 <= i < j < |values| ==> values[i] <= values[j]
    ensures BlockSmall(values, blockSize, t, delta, b)
  {
    hide AsSize, Start, BlockValues, Minus;
    var vs := BlockValues(values, b, blockSize);
    BlockInType(values, blockSize, t, b);
    BlockPart(values, b, blockSize);
    if delta {
      RisingDeltas(t, 0, vs);
    }
    var numbers := Numbers(t, delta, vs);
    forall i | 0 <= i < |numbers| ensures AsSize(numbers[i]) < 0x1000_0000 {
      SmallAsSize(numbers[i]);
    }
  }

  /** That holds of values below 2 to the 28th, if they are in order where differences are coded. */
  lemma SmallValuesFit(values: seq<int>, blockSize: nat, t: IntType, delta: bool, maxSize: nat -> nat, n: nat)
    requires t.Valid() && InType(t, values) && forall k: nat :: 4 * k <= maxSize(k)
    requires forall i :: 0 <= i < |values| ==> 0 <= values[i] < 0x1000_0000
    requires delta ==> forall i, j :: 0 <= i < j < |values| ==> values[i] <= values[j]
    ensures AllFit(values, blockSize, t, delta, maxSize, n)
  {
    hide BlockSmall, AllFit;
    forall b | 0 <= b < n ensures BlockSmall(values, blockSize, t, delta, b) {
      SmallNumbers(values, blockSize, t, delta, b);
    }
    FourBytesFit(values, blockSize, t, delta, maxSize, n);
  }

  lemma SixBytes(v: nat)
    requires v == 0x8_0000_0000
    ensures |Code(v)| == 6
  {
    assert Code(v) == [0] + Code(0x1000_0000) && Code(0x1000_0000) == [0] + Code(0x20_0000);
    assert Code(0x20_0000) == [0] + Code(0x4000) && Code(0x4000) == [0] + Code(0x80) && Code(0x80) == [0] + Code(1);
  }

  /** Two values of six bytes leave a buffer of fewer than twelve. */
  lemma LargeValuesOverflow(maxSize: nat -> nat)
    requires maxSize(2) < 12
    ensures var t, values := IntType(0, 0x1_0000_0000_0000_0000), [0x8_0000_0000, 0x8_0000_0000];
      t.Valid() && InType(t, values) && !AllFit(values, 2, t, false, maxSize, 1)
  {
    var t, v := IntType(0, 0x1_0000_0000_0000_0000), 0x8_0000_0000;
    SixBytes(v);
    assert BlockValues([v, v], 0, 2) == [v, v];
    assert [v, v][1..] == [v] && [v][1..] == [] && CodeAll([]) == [];
    assert CodeAll([v]) == Code(AsSize(v)) + [];
    assert !BlockFits([v, v], 2, t, false, maxSize, 0);
  }

  // ---- Iterating ----

  lemma OneModulusLess(p: nat, m: nat)
    requires 0 < m <= p
    ensures p % m == (p - m) % m
  {
    assert p == (p / m) * m + p % m && p - m == ((p - m) / m) * m + (p - m) % m;
    assert (p / m) * m == (p / m - 1) * m + m;
    SameRemainder(m, p / m - 1, p % m, (p - m) / m, (p - m) % m);
  }

  lemma {:induction false} ModOf(p: nat, b: nat, blockSize: nat)
    requires 0 < blockSize && Start(b, blockSize) <= p < Start(b, blockSize) + blockSize
    ensures p % blockSize == p - Start(b, blockSize)
  {
    if b == 0 {
      assert p < blockSize;
    } else {
      StartNext(b - 1, blockSize);
      ModOf(p - blockSize, b - 1, blockSize);
      OneModulusLess(p, blockSize);
    }
  }

  lemma Remainder(count: nat, b: nat, blockSize: nat)
    requires 0 < blockSize && Start(b, blockSize) < count <= Start(b, blockSize) + blockSize
    ensures var left := count - Start(b, blockSize); count % blockSize == if left == blockSize then 0 else left
  {
    var left := count - Start(b, blockSize);
    if left == blockSize {
      ModOf(count, b + 1, blockSize);
    } else {
      ModOf(count, b, blockSize);
    }
  }

  /** How many values `next_buffer` decodes. */
  lemma BlockLength(values: seq<int>, b: nat, blockSize: nat)
    requires 0 < blockSize < WORD && |values| + blockSize <= WORD && b < BlockCount(|values|, blockSize)
    ensures var n, vs := BlockCount(|values|, blockSize), BlockValues(values, b, blockSize);
      && Start(b, blockSize) < |values|
      && (b < n - 1 ==> |vs| == blockSize)
      && (b == n - 1 ==> |vs| == if |values| % blockSize == 0 then blockSize else |values| % blockSize)
  {
    var n := BlockCount(|values|, blockSize);
    hide BlockCount, Start;
    BlocksCover(|values|, blockSize);
    if b < n - 1 {
      StartMonotone(b, n - 1, blockSize);
    } else {
      StartNext(b, blockSize);
      Remainder(|values|, b, blockSize);
    }
  }

  class CompactTable {
    const data: seq<Byte>
    const t: IntType
    ghost const values: seq<int>
    ghost const blockSize: nat
    ghost const delta: bool

    ghost predicate Valid() {
      Holds(data, values, blockSize, t, delta)
    }

    /** A table over the bytes that hold some values. */
    constructor (data: seq<Byte>, t: IntType, ghost values: seq<int>, ghost delta: bool, ghost blockSize: nat)
      requires Holds(data, values, blockSize, t, delta)
      ensures Valid() && this.values == values && this.blockSize == blockSize
    {
      hide Holds;
      this.data, this.t, this.values, this.blockSize, this.delta := data, t, values, blockSize, delta;
    }

    function Size(): (r: nat)
      requires Valid()
      ensures r == |values|
    {
      WordAt(data, 0)
    }

    /** `table[idx]` */
    method At(idx: nat) returns (v: int)
      requires Valid() && idx < Size()
      ensures v == values[idx]
    {
      v := ReadCompactValue(data, idx, t, values, blockSize, delta);
    }

    /** `to_vector`: what iterating from `begin` to `end` yields. */
    method ToVector() returns (all: seq<int>)
      requires Valid() && |values| < 0x8000_0000 && blockSize < 0x8000_0000
      ensures all == values
    {
      hide Holds, Start;
      all := [];
      var it := new Iterator(this, 0);
      var end := new Iterator(this, Size());
      while it.pos != end.pos
        invariant fresh(it) && it.table == this && it.Valid() && fresh(end) && end.pos == |values|
        invariant it.pos <= |values| && all == values[..it.pos]
        decreases |values| - it.pos
      {
        var v := it.Dereference();
        all := all + [v];
        it.Increment();
      }
    }
  }

  lemma NextPosition(p: nat, b: nat, blockSize: nat, n: nat, count: nat)
    requires 0 < blockSize && Start(b, blockSize) <= p < Start(b, blockSize) + blockSize
    requires count <= Start(n, blockSize)
    ensures (p + 1) % blockSize == 0 <==> p + 1 == Start(b + 1, blockSize)
    ensures Start(b + 1, blockSize) == Start(b, blockSize) + blockSize
    ensures Start(b + 1, blockSize) < count ==> b + 1 < n
  {
    StartNext(b, blockSize);
    if p + 1 == Start(b + 1, blockSize) {
      ModOf(p + 1, b + 1, blockSize);
    } else {
      ModOf(p + 1, b, blockSize);
    }
    if n <= b + 1 {
      StartMonotone(n, b + 1, blockSize);
    }
  }

  class Iterator {
    const table: CompactTable
    const blockSize: nat
    const count: nat
    const leaderCount: nat
    const deltaEncoded: bool
    var pos: nat
    var leaderIdx: nat
    var buffer: seq<int>

    /** The header's fields, read once. */
    ghost predicate Fields() {
      && table.Valid() && blockSize == table.blockSize && count == |table.values|
      && deltaEncoded == table.delta && leaderCount == BlockCount(count, blockSize)
    }

    ghost predicate Current(b: nat)
      reads this
    {
      && Start(b, blockSize) <= pos < Start(b, blockSize) + blockSize
      && buffer == BlockValues(table.values, b, blockSize)
    }

    /** Before the end, the buffer holds the block of the current position. */
    ghost predicate Valid()
      reads this
    {
      && Fields() && pos <= count
      && (pos < count ==> 0 < leaderIdx && Current(leaderIdx - 1))
    }

    method NextBuffer()
      requires Fields() && leaderIdx < leaderCount
      modifies `leaderIdx, `buffer
      ensures leaderIdx == old(leaderIdx) + 1
      ensures buffer == BlockValues(table.values, old(leaderIdx), blockSize)
    {
      hide Start, BlockCount, BlockValues, Leads, InType, WordAt, BlockBytes, LeaderAt;
      LeaderOf(table.data, table.values, blockSize, table.t, deltaEncoded, leaderIdx);
      BlockLength(table.values, leaderIdx, blockSize);
      var leader := LeaderAt(table.data, leaderIdx);
      ghost var vs := BlockValues(table.values, leaderIdx, blockSize);
      var len := if leaderIdx < leaderCount - 1 then blockSize else count % blockSize;
      leaderIdx := leaderIdx + 1;
      if len == 0 {
        len := blockSize;
      }
      buffer := DecodeBlock(table.data, leader.ptr, len, table.t, deltaEncoded, vs);
      assert vs[..|vs|] == vs;
    }

    constructor (table: CompactTable, pos: nat)
      requires table.Valid() && (pos == 0 || pos == |table.values|)
      ensures this.table == table && this.pos == pos && Valid()
    {
      hide Start, BlockCount, BlockValues, Leads, InType, WordAt;
      this.table, this.pos := table, pos;
      blockSize, count := WordAt(table.data, 4), WordAt(table.data, 0);
      leaderCount := BlockCount(WordAt(table.data, 0), WordAt(table.data, 4));
      deltaEncoded := WordAt(table.data, 8) % 2 == 1;
      leaderIdx, buffer := 0, [];
      new;
      if pos < count {
        StartNext(0, blockSize);
        BlocksCover(count, blockSize);
        NextBuffer();
      }
    }

    method Dereference() returns (v: int)
      requires Valid() && pos < count
      ensures v == table.values[pos]
    {
      hide Start, BlockCount, Holds;
      ModOf(pos, leaderIdx - 1, blockSize);
      v := buffer[pos % blockSize];
    }

    method Increment()
      requires Valid() && pos < count
      modifies this
      ensures Valid() && pos == old(pos) + 1
    {
      hide Start, BlockCount, BlockValues, Leads, InType, WordAt;
      ghost var b := leaderIdx - 1;
      BlocksCover(count, blockSize);
      NextPosition(pos, b, blockSize, leaderCount, count);
      pos := pos + 1;
      if pos % blockSize == 0 && pos < count {
        NextBuffer();
      }
    }
  }
}
