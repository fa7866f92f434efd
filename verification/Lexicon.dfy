/**
 The lexicon: increasing keys in byte-aligned front-coded blocks of a fixed number of keys,
 found by key through the leading keys and by index through the leading indices.
 */
module Lexicon {
  import opened BitMemory
  import opened BitStream
  import opened AlphabeticTree
  import opened Options
  import opened Words
  import opened FrontCoding

  /** Keys in a full block: the loop that fills a block always writes its leading key. */
  function FullBlock(keysPerBlock: int): nat {
    if keysPerBlock < 1 then 1 else keysPerBlock
  }

  /** Where block `b` ends, in a list of block starts followed by `end`. */
  function EndOf(starts: seq<nat>, b: nat, end: nat): nat
    requires b < |starts|
  {
    if b + 1 < |starts| then starts[b + 1] else end
  }

  /** The starts cut `n` keys into full blocks, the last one perhaps short. */
  ghost predicate Cuts(starts: seq<nat>, n: nat, keysPerBlock: int) {
    && (starts != [] ==> starts[0] == 0)
    && (starts == [] ==> n == 0)
    && (forall b :: 0 <= b < |starts| ==> starts[b] < EndOf(starts, b, n) <= starts[b] + FullBlock(keysPerBlock))
    && (forall b :: 0 <= b < |starts| - 1 ==> starts[b + 1] == starts[b] + FullBlock(keysPerBlock))
  }

  lemma {:induction false} EndBelow(starts: seq<nat>, n: nat, keysPerBlock: int, b: nat)
    requires Cuts(starts, n, keysPerBlock) && b < |starts|
    ensures EndOf(starts, b, n) <= n
    decreases |starts| - b
  {
    if b + 1 < |starts| {
      EndBelow(starts, n, keysPerBlock, b + 1);
      assert starts[b + 1] < EndOf(starts, b + 1, n);
    }
  }

  lemma {:induction false} StartsBelow(starts: seq<nat>, n: nat, keysPerBlock: int, a: nat, b: nat)
    requires Cuts(starts, n, keysPerBlock) && a < b < |starts|
    ensures starts[a] < starts[b] && EndOf(starts, a, n) <= starts[b] <= n
    decreases b - a
  {
    assert starts[b] < EndOf(starts, b, n) && starts[a] < EndOf(starts, a, n);
    if a + 1 < b {
      StartsBelow(starts, n, keysPerBlock, a + 1, b);
    } else {
      EndBelow(starts, n, keysPerBlock, b);
    }
  }

  /** Every key of a block is spelled by the tree, and the block's bits hold its keys. */
  ghost predicate BlockHolds(t: Tree, bits: seq<bool>, vs: seq<Word>) {
    exists pad :: pad < 8 && bits == BlockCode(t, [], vs) + Zeros(pad)
  }

  ghost predicate StartsAtZero(offsets: seq<nat>, blocks: seq<bv8>) {
    if offsets == [] then blocks == [] else offsets[0] == 0
  }

  /** Block `b` takes the keys from its start and the bytes from its offset up to the next ones. */
  ghost predicate Piece(t: Tree, keys: seq<Word>, starts: seq<nat>, offsets: seq<nat>, blocks: seq<bv8>, b: nat)
    requires b < |starts| && b < |offsets|
  {
    && starts[b] <= EndOf(starts, b, |keys|) <= |keys|
    && offsets[b] < EndOf(offsets, b, |blocks|) <= |blocks|
    && BlockHolds(t, Bits(blocks[offsets[b]..EndOf(offsets, b, |blocks|)]), keys[starts[b]..EndOf(starts, b, |keys|)])
  }

  ghost predicate Encoded(t: Tree, keys: seq<Word>, starts: seq<nat>, offsets: seq<nat>, blocks: seq<bv8>) {
    && |offsets| == |starts| && StartsAtZero(offsets, blocks)
    && forall b :: 0 <= b < |starts| ==> Piece(t, keys, starts, offsets, blocks, b)
  }

  /** The leading keys lead to their blocks, and nothing else is stored. */
  ghost predicate Leads(stored: map<Word, nat>, keys: seq<Word>, starts: seq<nat>) {
    && (forall b :: 0 <= b < |starts| ==>
          starts[b] < |keys| && keys[starts[b]] in stored && stored[keys[starts[b]]] == b)
    && (forall k :: k in stored ==> stored[k] < |starts| && starts[stored[k]] < |keys| && k == keys[starts[stored[k]]])
  }

  // ---- Reading a block, and reading past it ----

  /** After `c` decodes: the c-th word, or the empty word once the block is used up. */
  ghost predicate ReaderAt(t: Tree, vs: seq<Word>, c: nat, k: Word, rest: seq<bool>) {
    && 1 <= c
    && (c <= |vs| ==> k == vs[c - 1] && exists pad :: rest == BlockCode(t, k, vs[c..]) + Zeros(pad))
    && (|vs| < c ==> k == [] && exists pad :: rest == Zeros(pad))
  }

  lemma ReaderStart(t: Tree, vs: seq<Word>, bits: seq<bool>)
    requires Ordered(t) && vs != [] && Spells(t, vs[0]) && BlockHolds(t, bits, vs)
    ensures var r := FrontOf(t, [], bits); r.Got? && ReaderAt(t, vs, 1, r.word, r.rest)
  {
    var pad :| pad < 8 && bits == BlockCode(t, [], vs) + Zeros(pad);
    hide FrontOf, FrontCode, Ordered;
    Regroup(FrontCode(t, [], vs[0]), BlockCode(t, vs[0], vs[1..]), Zeros(pad));
    FrontInverts(t, [], vs[0], BlockCode(t, vs[0], vs[1..]) + Zeros(pad));
  }

  lemma ReaderStep(t: Tree, vs: seq<Word>, c: nat, k: Word, rest: seq<bool>)
    requires Ordered(t) && ReaderAt(t, vs, c, k, rest)
    requires forall i :: 0 <= i < |vs| ==> Spells(t, vs[i])
    ensures var r := FrontOf(t, k, rest); r.Got? && ReaderAt(t, vs, c + 1, r.word, r.rest)
  {
    hide FrontOf, FrontCode, Ordered;
    if c < |vs| {
      var pad :| rest == BlockCode(t, k, vs[c..]) + Zeros(pad);
      assert vs[c..][1..] == vs[c + 1..];
      Regroup(FrontCode(t, k, vs[c]), BlockCode(t, vs[c], vs[c + 1..]), Zeros(pad));
      FrontInverts(t, k, vs[c], BlockCode(t, vs[c], vs[c + 1..]) + Zeros(pad));
    } else {
      var pad: nat;
      if c == |vs| {
        pad :| rest == BlockCode(t, k, vs[c..]) + Zeros(pad);
        assert BlockCode(t, k, vs[c..]) == [] && [] + Zeros(pad) == Zeros(pad);
      } else {
        pad :| rest == Zeros(pad);
      }
      ZerosDecodeToEmpty(t, k, pad);
    }
  }

  /** Decodes the first word of a block. */
  method FirstKey(codec: PrefixCodec, ghost vs: seq<Word>, bin: InputBitStream) returns (k: Word)
    requires codec.Valid() && bin.Valid() && vs != [] && AllSpelled(codec.tree, vs)
    requires BlockHolds(codec.tree, bin.Rest(), vs)
    modifies codec, bin
    ensures bin.Valid() && codec.prev == k && ReaderAt(codec.tree, vs, 1, k, bin.Rest())
  {
    hide Ordered, FrontOf, Represents, ReaderAt, BlockHolds, Spells;
    ReaderStart(codec.tree, vs, bin.Rest());
    codec.Reset();
    var ok;
    ok, k := codec.Decode(bin);
  }

  method NextKey(codec: PrefixCodec, ghost vs: seq<Word>, ghost c: nat, k: Word, bin: InputBitStream)
    returns (next: Word)
    requires codec.Valid() && bin.Valid() && codec.prev == k && AllSpelled(codec.tree, vs)
    requires ReaderAt(codec.tree, vs, c, k, bin.Rest())
    modifies codec, bin
    ensures bin.Valid() && codec.prev == next && ReaderAt(codec.tree, vs, c + 1, next, bin.Rest())
  {
    hide Ordered, FrontOf, Represents, ReaderAt, Spells;
    ReaderStep(codec.tree, vs, c, k, bin.Rest());
    var ok;
    ok, next := codec.Decode(bin);
  }

  // ---- What a scan that stopped means ----

  lemma LeaderStarts(stored: map<Word, nat>, keys: seq<Word>, starts: seq<nat>, key: Word, leader: Word, b: nat)
    requires Increasing(keys) && Leads(stored, keys, starts)
    requires GreatestAtMost(stored, key, leader) && b == stored[leader]
    requires forall b :: 0 <= b < |starts| - 1 ==> starts[b] < starts[b + 1]
    ensures b < |starts| && starts[b] < |keys| && keys[starts[b]] == leader
    ensures b + 1 < |starts| ==> starts[b + 1] < |keys| && Less(key, keys[starts[b + 1]])
  {
    if b + 1 < |starts| {
      var next := keys[starts[b + 1]];
      LessAsymmetric(leader, next);
      LessTotal(key, next);
      assert next in stored;
    }
  }

  class Lexicon {
    const codec: PrefixCodec
    const leadingKeys: RadixTree
    const blockOffsets: seq<nat>
    const leadingIndices: seq<nat>
    const blocks: seq<bv8>
    const count: nat
    const keysPerBlock: int
    ghost const keys: seq<Word>

    ghost predicate Valid()
      reads leadingKeys
    {
      && codec.Valid() && leadingKeys.Valid()
      && keys != [] && count == |keys| && Increasing(keys)
      && AllSpelled(codec.tree, keys)
      && leadingIndices != [] && Cuts(leadingIndices, |keys|, keysPerBlock)
      && Encoded(codec.tree, keys, leadingIndices, blockOffsets, blocks)
      && Leads(leadingKeys.Stored(), keys, leadingIndices)
    }

    constructor (codec: PrefixCodec, leadingKeys: RadixTree, blockOffsets: seq<nat>, leadingIndices: seq<nat>,
                 blocks: seq<bv8>, count: nat, keysPerBlock: int, ghost keys: seq<Word>)
      ensures this.codec == codec && this.leadingKeys == leadingKeys && this.blockOffsets == blockOffsets
      ensures this.leadingIndices == leadingIndices && this.blocks == blocks && this.count == count
      ensures this.keysPerBlock == keysPerBlock && this.keys == keys
    {
      this.codec, this.leadingKeys := codec, leadingKeys;
      this.blockOffsets, this.leadingIndices, this.blocks := blockOffsets, leadingIndices, blocks;
      this.count, this.keysPerBlock, this.keys := count, keysPerBlock, keys;
    }

    /** The keys of block `b`. */
    ghost function BlockKeys(b: nat): seq<Word>
      requires Valid() && b < |leadingIndices|
      reads leadingKeys
    {
      keys[leadingIndices[b]..EndOf(leadingIndices, b, |keys|)]
    }

    lemma BlockSpelled(b: nat)
      requires Valid() && b < |leadingIndices|
      ensures AllSpelled(codec.tree, BlockKeys(b))
    {
      hide Increasing, Leads, Ordered, Represents, BlockHolds, Spells;
      EndBelow(leadingIndices, |keys|, keysPerBlock, b);
    }

    lemma BlockFacts(b: nat)
      requires Valid() && b < |leadingIndices|
      ensures codec.Valid() && count == |keys|
      ensures BlockKeys(b) != [] && AllSpelled(codec.tree, BlockKeys(b))
      ensures b < |blockOffsets| && blockOffsets[b] < EndOf(blockOffsets, b, |blocks|) <= |blocks|
      ensures BlockHolds(codec.tree, Bits(blocks[blockOffsets[b]..EndOf(blockOffsets, b, |blocks|)]), BlockKeys(b))
      ensures leadingIndices[b] < EndOf(leadingIndices, b, |keys|) <= |keys|
      ensures EndOf(leadingIndices, b, |keys|) - leadingIndices[b] <= FullBlock(keysPerBlock)
    {
      hide Increasing, Leads, Ordered, Represents, BlockHolds, AllSpelled, Bits, StartsAtZero;
      BlockSpelled(b);
      assert Piece(codec.tree, keys, leadingIndices, blockOffsets, blocks, b);
    }

    /** The blocks lie side by side from the start, and each is its keys' code, completed
        with zeros to whole bytes. */
    lemma BlockBits(b: nat)
      requires Valid() && b < |leadingIndices|
      ensures |blockOffsets| == |leadingIndices| && blockOffsets[0] == 0
      ensures var from, to := blockOffsets[b], if b + 1 < |blockOffsets| then blockOffsets[b + 1] else |blocks|;
        var first, last := leadingIndices[b], if b + 1 < |leadingIndices| then leadingIndices[b + 1] else |keys|;
        && first <= last <= |keys| && from < to <= |blocks|
        && var code := BlockCode(codec.tree, [], keys[first..last]);
        && 0 <= 8 * (to - from) - |code| < 8
        && Bits(blocks[from..to]) == code + Zeros(8 * (to - from) - |code|)
    {
      hide BlockCode, Bits, Zeros, Increasing, Leads, Ordered, Represents, AllSpelled, Cuts;
      assert Piece(codec.tree, keys, leadingIndices, blockOffsets, blocks, b);
      var bytes := blocks[blockOffsets[b]..EndOf(blockOffsets, b, |blocks|)];
      var vs := keys[leadingIndices[b]..EndOf(leadingIndices, b, |keys|)];
      var pad :| pad < 8 && Bits(bytes) == BlockCode(codec.tree, [], vs) + Zeros(pad);
      assert |Bits(bytes)| == |BlockCode(codec.tree, [], vs)| + pad;
    }

    /** `block_memory_view` and the bit stream over it */
    method OpenBlock(b: nat) returns (bin: InputBitStream)
      requires Valid() && b < |leadingIndices|
      ensures fresh(bin) && bin.Valid() && BlockHolds(codec.tree, bin.Rest(), BlockKeys(b))
    {
      BlockFacts(b);
      hide Valid;
      bin := new InputBitStream(blocks[blockOffsets[b]..EndOf(blockOffsets, b, |blocks|)]);
    }

    method Scan(key: Word, ghost vs: seq<Word>, start: nat, ghost end: nat, first: Word, bin: InputBitStream)
      returns (r: Option<nat>)
      requires codec.Valid() && bin.Valid() && codec.prev == first && AllSpelled(codec.tree, vs)
      requires Increasing(keys) && start < end <= |keys| && end - start <= FullBlock(keysPerBlock)
      requires vs == keys[start..end] && ReaderAt(codec.tree, vs, 1, first, bin.Rest())
      requires AtMost(keys[start], key) && (end < |keys| ==> Less(key, keys[end]))
      modifies codec, bin
      ensures match r
              case Some(i) => i < |keys| && keys[i] == key
              case None => key !in keys
    {
      hide InputBitStream.Valid, InputBitStream.Rest, AllSpelled, Increasing, Less, BlockCode, Zeros;
      var k, value, idx := first, start, 1;
      while Less(k, key)
        invariant bin.Valid() && codec.prev == k
        invariant 1 <= idx <= FullBlock(keysPerBlock) && value == start + idx - 1
        invariant ReaderAt(codec.tree, vs, idx, k, bin.Rest())
        invariant end - start < idx ==> Less(keys[end - 1], key)
        invariant 1 < idx <= end - start ==> Less(keys[start + idx - 2], key)
        decreases FullBlock(keysPerBlock) - idx
      {
        if !(idx < keysPerBlock) {
          break;
        }
        k := NextKey(codec, vs, idx, k, bin);
        idx := idx + 1;
        value := value + 1;
      }
      ScanDecides(keys, start, end, FullBlock(keysPerBlock), idx, k, key);
      r := if k == key then Some(value) else None;
    }

    /** The position of a key, or nothing if the lexicon does not hold it. */
    method IndexAt(key: Word) returns (r: Option<nat>)
      requires Valid()
      modifies codec
      ensures match r
              case Some(i) => i < |keys| && keys[i] == key
              case None => key !in keys
    {
      hide ReaderAt, BlockHolds, InputBitStream.Valid, InputBitStream.Rest, AllSpelled, Increasing, Spells, Encoded;
      ghost var leader;
      var block;
      block, leader := leadingKeys.SeekLe(key);
      if block == None {
        assert leadingIndices[0] == 0 && keys[0] in leadingKeys.Stored();
        BeforeAll(keys, key);
        return None;
      }
      var b := block.value;
      LeaderStarts(leadingKeys.Stored(), keys, leadingIndices, key, leader, b);
      BlockFacts(b);
      ghost var end, vs := EndOf(leadingIndices, b, |keys|), BlockKeys(b);
      var bin := OpenBlock(b);
      var k := FirstKey(codec, vs, bin);
      r := Scan(key, vs, leadingIndices[b], end, k, bin);
    }

    lemma StartsIncrease()
      requires Valid()
      ensures leadingIndices != [] && leadingIndices[0] == 0
      ensures Rising(leadingIndices)
    {
      hide Encoded, Leads;
      forall i, j | 0 <= i < j < |leadingIndices| ensures leadingIndices[i] < leadingIndices[j] {
        StartsBelow(leadingIndices, |keys|, keysPerBlock, i, j);
      }
    }

    method Walk(ghost vs: seq<Word>, start: nat, index: nat, first: Word, bin: InputBitStream) returns (key: Word)
      requires codec.Valid() && bin.Valid() && codec.prev == first && AllSpelled(codec.tree, vs)
      requires start <= index < start + |vs| && ReaderAt(codec.tree, vs, 1, first, bin.Rest())
      modifies codec, bin
      ensures key == vs[index - start]
    {
      hide InputBitStream.Valid, InputBitStream.Rest, AllSpelled, BlockCode, Zeros;
      var value := start;
      key := first;
      while value < index
        invariant bin.Valid() && codec.prev == key && start <= value <= index
        invariant ReaderAt(codec.tree, vs, value - start + 1, key, bin.Rest())
      {
        key := NextKey(codec, vs, value - start + 1, key, bin);
        value := value + 1;
      }
    }

    /** The key at a position. */
    method KeyAt(index: nat) returns (key: Word)
      requires Valid() && index < count
      modifies codec
      ensures key == keys[index]
    {
      hide Valid, ReaderAt, BlockHolds, InputBitStream.Valid, InputBitStream.Rest, AllSpelled, Rising,
        PrefixCodec.Valid;
      StartsIncrease();
      ghost var at := RisingSplits(leadingIndices, index);
      assert SplitsAt(leadingIndices, index, at);
      var b := LastAtMost(leadingIndices, index, at);
      BlockFacts(b);
      ghost var vs := BlockKeys(b);
      assert index - leadingIndices[b] < |vs| && vs[index - leadingIndices[b]] == keys[index];
      var bin := OpenBlock(b);
      var first := FirstKey(codec, vs, bin);
      key := Walk(vs, leadingIndices[b], index, first, bin);
    }
  }

  // ---- Building ----

  /** One block: its leading key and as many keys after it as the block takes. */
  method EncodeBlock(keys: seq<Word>, from: nat, keysPerBlock: int, codec: PrefixCodec, bout: OutputBitStream)
    returns (to: nat)
    requires codec.Valid() && bout.Valid() && from < |keys|
    modifies codec, bout
    ensures bout.Valid() && old(bout.out) <= bout.out
    ensures from < to <= |keys| && to <= from + FullBlock(keysPerBlock)
    ensures to < |keys| ==> to == from + FullBlock(keysPerBlock)
    ensures bout.written == old(bout.written) + BlockCode(codec.tree, [], keys[from..to])
  {
    hide OutputBitStream.Valid, FrontCode, BlockCode, Ordered, Represents;
    codec.Reset();
    codec.Encode(keys[from], bout);
    assert keys[from..from + 1] == [keys[from]];
    OneWordCode(codec.tree, [], keys[from]);
    to := from + 1;
    var inBlock := 1;
    while inBlock < keysPerBlock && to < |keys|
      invariant from < to <= |keys| && inBlock == to - from <= FullBlock(keysPerBlock)
      invariant bout.Valid() && old(bout.out) <= bout.out && codec.prev == keys[to - 1]
      invariant bout.written == old(bout.written) + BlockCode(codec.tree, [], keys[from..to])
    {
      codec.Encode(keys[to], bout);
      assert keys[from..to + 1] == keys[from..to] + [keys[to]];
      BlockCodeSnoc(codec.tree, [], keys[from..to], keys[to]);
      Regroup(old(bout.written), BlockCode(codec.tree, [], keys[from..to]),
              FrontCode(codec.tree, keys[to - 1], keys[to]));
      inBlock, to := inBlock + 1, to + 1;
    }
  }

  lemma StillAtZero(offsets: seq<nat>, blocks: seq<bv8>, longer: seq<bv8>)
    requires StartsAtZero(offsets, blocks)
    ensures StartsAtZero(offsets + [|blocks|], longer)
  {
  }

  lemma PieceStays(t: Tree, seen: seq<Word>, starts: seq<nat>, offsets: seq<nat>, blocks: seq<bv8>,
                   vs: seq<Word>, longer: seq<bv8>, b: nat)
    requires |offsets| == |starts| && b < |starts| && Piece(t, seen, starts, offsets, blocks, b) && blocks <= longer
    ensures Piece(t, seen + vs, starts + [|seen|], offsets + [|blocks|], longer, b)
  {
    hide BlockHolds, Bits;
    var starts', offsets', keys := starts + [|seen|], offsets + [|blocks|], seen + vs;
    assert EndOf(starts', b, |keys|) == EndOf(starts, b, |seen|);
    assert EndOf(offsets', b, |longer|) == EndOf(offsets, b, |blocks|);
    assert longer[offsets[b]..EndOf(offsets, b, |blocks|)] == blocks[offsets[b]..EndOf(offsets, b, |blocks|)];
    assert keys[starts[b]..EndOf(starts, b, |seen|)] == seen[starts[b]..EndOf(starts, b, |seen|)];
  }

  lemma PieceNew(t: Tree, seen: seq<Word>, starts: seq<nat>, offsets: seq<nat>, blocks: seq<bv8>,
                 vs: seq<Word>, longer: seq<bv8>)
    requires |offsets| == |starts| && blocks <= longer && |blocks| < |longer|
    requires BlockHolds(t, Bits(longer[|blocks|..]), vs)
    ensures Piece(t, seen + vs, starts + [|seen|], offsets + [|blocks|], longer, |starts|)
  {
    hide BlockHolds, Bits;
    assert longer[|blocks|..|longer|] == longer[|blocks|..] && (seen + vs)[|seen|..|seen + vs|] == vs;
  }

  lemma EncodedSnoc(t: Tree, seen: seq<Word>, starts: seq<nat>, offsets: seq<nat>, blocks: seq<bv8>,
                    vs: seq<Word>, longer: seq<bv8>)
    requires Encoded(t, seen, starts, offsets, blocks) && blocks <= longer && |blocks| < |longer|
    requires BlockHolds(t, Bits(longer[|blocks|..]), vs)
    ensures Encoded(t, seen + vs, starts + [|seen|], offsets + [|blocks|], longer)
  {
    hide BlockHolds, Bits, StartsAtZero, Piece;
    StillAtZero(offsets, blocks, longer);
    forall b | 0 <= b < |starts| {
      PieceStays(t, seen, starts, offsets, blocks, vs, longer, b);
    }
    PieceNew(t, seen, starts, offsets, blocks, vs, longer);
  }

  lemma LeadsSnoc(stored: map<Word, nat>, keys: seq<Word>, starts: seq<nat>, n: nat)
    requires Increasing(keys) && Leads(stored, keys, starts) && n < |keys|
    requires forall b :: 0 <= b < |starts| ==> starts[b] < n
    ensures Leads(stored[keys[n] := |starts|], keys, starts + [n])
  {
    forall b | 0 <= b < |starts| ensures keys[starts[b]] != keys[n] {
      LessAsymmetric(keys[starts[b]], keys[n]);
    }
  }

  lemma AllBelow(starts: seq<nat>, n: nat, keysPerBlock: int)
    requires Cuts(starts, n, keysPerBlock)
    requires starts != [] ==> n == starts[|starts| - 1] + FullBlock(keysPerBlock)
    ensures forall b :: 0 <= b < |starts| ==> starts[b] < n
  {
    forall b | 0 <= b < |starts| ensures starts[b] < n {
      if b < |starts| - 1 {
        StartsBelow(starts, n, keysPerBlock, b, |starts| - 1);
      }
    }
  }

  lemma EndOfSnoc(starts: seq<nat>, n: nat, m: nat, b: nat)
    requires b <= |starts|
    ensures EndOf(starts + [n], b, m) == if b < |starts| then EndOf(starts, b, n) else m
  {
  }

  lemma CutsSnoc(starts: seq<nat>, n: nat, keysPerBlock: int, m: nat)
    requires Cuts(starts, n, keysPerBlock) && n < m <= n + FullBlock(keysPerBlock)
    requires starts != [] ==> n == starts[|starts| - 1] + FullBlock(keysPerBlock)
    ensures Cuts(starts + [n], m, keysPerBlock)
    ensures forall b :: 0 <= b < |starts| ==> starts[b] < n
  {
    hide FullBlock, EndOf;
    AllBelow(starts, n, keysPerBlock);
    var longer := starts + [n];
    forall b | 0 <= b < |longer|
      ensures longer[b] < EndOf(longer, b, m) <= longer[b] + FullBlock(keysPerBlock)
    {
      EndOfSnoc(starts, n, m, b);
    }
  }

  lemma BlockCodeNotEmpty(t: Tree, vs: seq<Word>)
    requires vs != []
    ensures BlockCode(t, [], vs) != []
  {
    var p := CommonPrefix([], vs[0]);
    assert FrontCode(t, [], vs[0]) == Unary(p) + Unary(|vs[0]| - p) + WordCode(t, vs[0][p..]);
    assert |FrontCode(t, [], vs[0])| >= 1;
  }

  /** The new block's bits are the block's code and padding. */
  lemma FlushedBlock(t: Tree, vs: seq<Word>, before: seq<bv8>, after: seq<bv8>, pad: nat)
    requires vs != [] && before <= after && pad < 8
    requires Bits(after) == Bits(before) + BlockCode(t, [], vs) + Zeros(pad)
    ensures |before| < |after| && BlockHolds(t, Bits(after[|before|..]), vs)
  {
    var code := BlockCode(t, [], vs);
    BlockCodeNotEmpty(t, vs);
    hide BlockCode, Bits;
    assert |Bits(after)| == 8 * |after|;
    BitsSlice(after, |before|, |after|);
    assert after[|before|..|after|] == after[|before|..];
    assert Bits(after)[8 * |before|..8 * |after|] == code + Zeros(pad);
  }

  lemma NothingBuilt(t: Tree, keys: seq<Word>, keysPerBlock: int)
    ensures Cuts([], 0, keysPerBlock) && Encoded(t, keys[..0], [], [], []) && Leads(map[], keys, [])
  {
  }

  lemma PaddingBelow(n: nat)
    ensures Padding(n) < 8
  {
  }

  lemma MultipliesUp(a: nat, b: nat, m: nat)
    requires a <= b
    ensures a * m <= b * m
  {
  }

  lemma StepsOf(steps: nat, n: nat, m: nat)
    requires 0 < m && 0 < steps && (steps - 1) * m < n <= (steps - 1) * m + m
    ensures steps == (n + m - 1) / m
  {
    var q := (n + m - 1) / m;
    assert n + m - 1 == q * m + (n + m - 1) % m;
    assert steps * m == (steps - 1) * m + m;
    if q < steps {
      assert (q + 1) * m <= steps * m by {
        MultipliesUp(q + 1, steps, m);
      }
    } else if steps < q {
      MultipliesUp(steps + 1, q, m);
    }
  }

  lemma OneMore(b: nat, m: nat)
    requires b != 0
    ensures b * m == (b - 1) * m + m
  {
  }

  lemma {:induction false} StartIs(starts: seq<nat>, n: nat, keysPerBlock: int, b: nat)
    requires Cuts(starts, n, keysPerBlock) && b < |starts|
    ensures starts[b] == b * FullBlock(keysPerBlock)
  {
    if b != 0 {
      StartIs(starts, n, keysPerBlock, b - 1);
      OneMore(b, FullBlock(keysPerBlock));
    }
  }

  /** Every block but the last takes the same number of keys, which is at least one. */
  lemma CutsAre(starts: seq<nat>, n: nat, keysPerBlock: int)
    requires Cuts(starts, n, keysPerBlock) && starts != []
    ensures var m := if keysPerBlock < 1 then 1 else keysPerBlock;
      && |starts| == (n + m - 1) / m
      && forall b :: 0 <= b < |starts| ==> starts[b] == b * m
  {
    var m := FullBlock(keysPerBlock);
    forall b | 0 <= b < |starts| ensures starts[b] == b * m {
      StartIs(starts, n, keysPerBlock, b);
    }
    assert starts[|starts| - 1] < EndOf(starts, |starts| - 1, n) <= starts[|starts| - 1] + m;
    StepsOf(|starts|, n, m);
  }

  /** Builds the lexicon of increasing, spelled keys, block after block. */
  method BuildLexicon(keys: seq<Word>, keysPerBlock: int, codec: PrefixCodec) returns (lex: Lexicon)
    requires keys != [] && Increasing(keys) && codec.Valid() && AllSpelled(codec.tree, keys)
    modifies codec
    ensures fresh(lex) && lex.Valid() && lex.codec == codec && lex.keys == keys
    ensures lex.keysPerBlock == keysPerBlock && lex.count == |keys|
    ensures var m := if keysPerBlock < 1 then 1 else keysPerBlock;
      && |lex.leadingIndices| == (|keys| + m - 1) / m
      && forall b :: 0 <= b < |lex.leadingIndices| ==> lex.leadingIndices[b] == b * m
  {
    hide BlockHolds, Bits, OutputBitStream.Valid, Ordered, Represents, AllSpelled, Increasing, Encoded, Leads, Cuts,
      BlockCode, Zeros, Padding;
    var bout := new OutputBitStream();
    var leadingKeys := new RadixTree();
    var offsets: seq<nat>, starts: seq<nat> := [], [];
    var index := 0;
    NothingBuilt(codec.tree, keys, keysPerBlock);
    while index < |keys|
      invariant index <= |keys| && bout.Valid() && fresh(bout) && leadingKeys.Valid() && fresh(leadingKeys)
      invariant bout.written == Bits(bout.out)
      invariant |starts| == |offsets| && (index == 0 <==> starts == [])
      invariant Cuts(starts, index, keysPerBlock)
      invariant starts != [] && index < |keys| ==> index == starts[|starts| - 1] + FullBlock(keysPerBlock)
      invariant Encoded(codec.tree, keys[..index], starts, offsets, bout.out)
      invariant Leads(leadingKeys.Stored(), keys, starts)
    {
      ghost var before, stored := bout.out, leadingKeys.Stored();
      offsets := offsets + [|bout.out|];
      leadingKeys.Insert(keys[index], |starts|);
      var next := EncodeBlock(keys, index, keysPerBlock, codec, bout);
      ghost var vs := keys[index..next];
      bout.Flush();
      PaddingBelow(|Bits(before) + BlockCode(codec.tree, [], vs)|);
      FlushedBlock(codec.tree, vs, before, bout.out, Padding(|Bits(before) + BlockCode(codec.tree, [], vs)|));
      CutsSnoc(starts, index, keysPerBlock, next);
      LeadsSnoc(stored, keys, starts, index);
      EncodedSnoc(codec.tree, keys[..index], starts, offsets[..|starts|], before, vs, bout.out);
      assert keys[..next] == keys[..index] + vs;
      starts := starts + [index];
      index := next;
    }
    assert keys[..index] == keys;
    codec.Reset();
    CutsAre(starts, |keys|, keysPerBlock);
    lex := new Lexicon(codec, leadingKeys, offsets, starts, bout.out, index, keysPerBlock, keys);
  }
}
