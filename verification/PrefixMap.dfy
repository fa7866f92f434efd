/**
 The prefix map: increasing words in front-coded blocks of fixed size, found by word
 through the blocks' first words and by index through the blocks' first indices.
 */
module PrefixMap {
  import opened BitMemory
  import opened AlphabeticTree
  import opened Options
  import opened Words
  import opened FrontCoding
  import opened Blocks
  import opened BlockLayout

  /** A block starts at a slot of the memory and holds words from index `first` on. An
      oversized word takes further slots. */
  datatype Block = Block(slot: nat, first: nat, words: seq<Word>)

  function Place(slot: nat, blockSize: nat): nat {
    slot * blockSize
  }

  lemma PlaceNext(slot: nat, blockSize: nat)
    ensures Place(slot + 1, blockSize) == Place(slot, blockSize) + blockSize
  {
  }

  lemma {:induction false} PlaceMonotone(a: nat, b: nat, blockSize: nat)
    requires a < b
    ensures Place(a, blockSize) + blockSize <= Place(b, blockSize)
    decreases b
  {
    PlaceNext(b - 1, blockSize);
    hide Place;
    if a < b - 1 {
      PlaceMonotone(a, b - 1, blockSize);
    }
  }

  /** The block holds the words from its first index on. */
  predicate Cut(block: Block, words: seq<Word>) {
    && block.first + |block.words| <= |words|
    && block.words == words[block.first..block.first + |block.words|]
  }

  /** The blocks cut the words in order; only the first may be empty. */
  ghost predicate Chained(blocks: seq<Block>, words: seq<Word>) {
    && blocks != [] && blocks[0].first == 0 && blocks[0].slot == 0
    && (forall b :: 0 <= b < |blocks| ==> Cut(blocks[b], words) && (0 < b ==> blocks[b].words != []))
    && (forall b :: 0 <= b < |blocks| - 1 ==>
          && blocks[b + 1].first == blocks[b].first + |blocks[b].words|
          && blocks[b].slot < blocks[b + 1].slot)
    && blocks[|blocks| - 1].first + |blocks[|blocks| - 1].words| == |words|
  }

  /** The bits in a block of one slot, behind its header. */
  function Room(blockSize: nat): nat {
    if BLOCK_DATA_OFFSET <= blockSize then 8 * blockSize - 8 * BLOCK_DATA_OFFSET else 0
  }

  /** A block of one slot shows what its builder draws, word by word. */
  ghost predicate Shown(t: Tree, bytes: seq<bv8>, block: Block, blockSize: nat, limit: nat) {
    var picture := Drawn(t, block.words, Room(blockSize));
    && EndOf(Place(block.slot, blockSize), picture.bits) <= 8 * limit
    && Shows(bytes, Place(block.slot, blockSize), picture.bits)
  }

  /** A finished block has its place before `limit`, with the first index and the count. If its
      words fit one slot, all its bits are known. */
  ghost predicate Laid(t: Tree, bytes: seq<bv8>, block: Block, blockSize: nat, limit: nat) {
    var place := Place(block.slot, blockSize);
    && place + BLOCK_DATA_OFFSET <= limit <= |bytes| && EndOf(place, BlockCode(t, [], block.words)) <= 8 * limit
    && HoldsContent(bytes, place, block.first, []) && IntAt(bytes, place + 4) == |block.words|
    && (AllFitAlone(t, block.words, blockSize) ==> Shown(t, bytes, block, blockSize, limit))
  }

  ghost predicate AllLaid(t: Tree, bytes: seq<bv8>, blocks: seq<Block>, blockSize: nat, limit: nat) {
    forall b :: 0 <= b < |blocks| ==> Laid(t, bytes, blocks[b], blockSize, limit)
  }

  /** The memory holds the block's words. */
  ghost predicate Held(t: Tree, bytes: seq<bv8>, block: Block, blockSize: nat) {
    HoldsContent(bytes, Place(block.slot, blockSize), block.first, BlockCode(t, [], block.words))
  }

  ghost predicate AllHeld(t: Tree, bytes: seq<bv8>, blocks: seq<Block>, blockSize: nat) {
    forall b :: 0 <= b < |blocks| ==> Held(t, bytes, blocks[b], blockSize)
  }

  lemma SameBitsBefore(before: seq<bv8>, after: seq<bv8>, limit: nat)
    requires limit <= |before| && limit <= |after| && after[..limit] == before[..limit]
    ensures Bits(after)[..8 * limit] == Bits(before)[..8 * limit]
  {
    hide Bits;
    BitsSlice(before, 0, limit);
    BitsSlice(after, 0, limit);
    assert after[0..limit] == after[..limit] && before[0..limit] == before[..limit];
  }

  lemma SamePart(a: seq<bool>, b: seq<bool>, limit: nat, from: nat, to: nat)
    requires from <= to <= limit <= |a| && limit <= |b| && a[..limit] == b[..limit]
    ensures a[from..to] == b[from..to]
  {
    assert a[..limit][from..to] == a[from..to] && b[..limit][from..to] == b[from..to];
  }

  lemma HoldsFrame(before: seq<bv8>, after: seq<bv8>, begin: nat, limit: nat, firstIndex: nat, content: seq<bool>)
    requires begin + BLOCK_DATA_OFFSET <= limit <= |before| && limit <= |after| && EndOf(begin, content) <= 8 * limit
    requires after[..limit] == before[..limit]
    ensures HoldsContent(after, begin, firstIndex, content) <==> HoldsContent(before, begin, firstIndex, content)
    ensures IntAt(after, begin + 4) == IntAt(before, begin + 4)
  {
    hide Bits, ByteValue;
    SameBitsBefore(before, after, limit);
    forall i | 0 <= i < limit ensures after[i] == before[i] {
      assert after[i] == after[..limit][i] && before[i] == before[..limit][i];
    }
    var at := 8 * begin + 8 * BLOCK_DATA_OFFSET;
    SamePart(Bits(before), Bits(after), 8 * limit, at, at + |content|);
  }

  lemma ShowsFrame(before: seq<bv8>, after: seq<bv8>, begin: nat, limit: nat, bits: seq<bool>)
    requires limit <= |before| && limit <= |after| && EndOf(begin, bits) <= 8 * limit
    requires after[..limit] == before[..limit]
    ensures Shows(after, begin, bits) <==> Shows(before, begin, bits)
  {
    hide Bits;
    SameBitsBefore(before, after, limit);
    SamePart(Bits(before), Bits(after), 8 * limit, EndOf(begin, []), EndOf(begin, bits));
  }

  /** A block before `limit` does not notice what happens to the memory behind it. */
  lemma LaidFrame(t: Tree, before: seq<bv8>, after: seq<bv8>, block: Block, blockSize: nat, limit: nat)
    requires Laid(t, before, block, blockSize, limit)
    requires limit <= |before| && limit <= |after| && after[..limit] == before[..limit]
    ensures Laid(t, after, block, blockSize, limit)
    ensures Held(t, after, block, blockSize) <==> Held(t, before, block, blockSize)
  {
    hide HoldsContent, BlockCode, IntAt, Shows, Drawn, AllFitAlone, Place;
    if AllFitAlone(t, block.words, blockSize) {
      ShowsFrame(before, after, Place(block.slot, blockSize), limit, Drawn(t, block.words, Room(blockSize)).bits);
    }
    HoldsFrame(before, after, Place(block.slot, blockSize), limit, block.first, []);
    HoldsFrame(before, after, Place(block.slot, blockSize), limit, block.first, BlockCode(t, [], block.words));
  }

  /** Nor do all blocks before it. */
  lemma AllFrame(t: Tree, before: seq<bv8>, after: seq<bv8>, blocks: seq<Block>, blockSize: nat, limit: nat)
    requires AllLaid(t, before, blocks, blockSize, limit)
    requires limit <= |before| && limit <= |after| && after[..limit] == before[..limit]
    ensures AllLaid(t, after, blocks, blockSize, limit)
    ensures AllHeld(t, after, blocks, blockSize) <==> AllHeld(t, before, blocks, blockSize)
  {
    hide Laid, Held;
    forall b | 0 <= b < |blocks|
      ensures Laid(t, after, blocks[b], blockSize, limit)
      ensures Held(t, after, blocks[b], blockSize) <==> Held(t, before, blocks[b], blockSize)
    {
      LaidFrame(t, before, after, blocks[b], blockSize, limit);
    }
  }

  lemma AllLaidSnoc(t: Tree, bytes: seq<bv8>, blocks: seq<Block>, blockSize: nat, limit: nat, block: Block, higher: nat)
    requires AllLaid(t, bytes, blocks, blockSize, limit) && limit <= higher <= |bytes|
    requires Laid(t, bytes, block, blockSize, higher)
    ensures AllLaid(t, bytes, blocks + [block], blockSize, higher)
  {
    hide HoldsContent, BlockCode, IntAt, Shows, Drawn, AllFitAlone;
    forall b | 0 <= b < |blocks| ensures Laid(t, bytes, blocks[b], blockSize, higher) {
      assert Laid(t, bytes, blocks[b], blockSize, limit);
    }
  }

  lemma AllHeldSnoc(t: Tree, bytes: seq<bv8>, blocks: seq<Block>, blockSize: nat)
    requires blocks != []
    ensures AllHeld(t, bytes, blocks, blockSize)
       <==> (AllHeld(t, bytes, blocks[..|blocks| - 1], blockSize) && Held(t, bytes, blocks[|blocks| - 1], blockSize))
  {
    hide Held;
    var m := |blocks| - 1;
    if AllHeld(t, bytes, blocks, blockSize) {
      forall b | 0 <= b < m ensures Held(t, bytes, blocks[..m][b], blockSize) {
        assert Held(t, bytes, blocks[b], blockSize);
      }
    }
    if AllHeld(t, bytes, blocks[..m], blockSize) && Held(t, bytes, blocks[m], blockSize) {
      forall b | 0 <= b < |blocks| ensures Held(t, bytes, blocks[b], blockSize) {
        if b < m {
          assert Held(t, bytes, blocks[..m][b], blockSize);
        }
      }
    }
  }

  ghost predicate LedBy(slot: nat, k: Word, blocks: seq<Block>) {
    exists b :: 0 <= b < |blocks| && blocks[b].words != [] && blocks[b].words[0] == k && blocks[b].slot == slot
  }

  /** The first words of the blocks lead to their slots, and nothing else is stored. */
  ghost predicate Leads(stored: map<Word, nat>, blocks: seq<Block>) {
    && (forall b :: 0 <= b < |blocks| && blocks[b].words != [] ==>
          blocks[b].words[0] in stored && stored[blocks[b].words[0]] == blocks[b].slot)
    && (forall k :: k in stored ==> LedBy(stored[k], k, blocks))
  }

  /** The last block with one more word. */
  function Grown(blocks: seq<Block>, w: Word): seq<Block>
    requires blocks != []
  {
    var m := |blocks| - 1;
    blocks[m := blocks[m].(words := blocks[m].words + [w])]
  }

  lemma CutExtends(block: Block, words: seq<Word>, w: Word)
    requires Cut(block, words)
    ensures Cut(block, words + [w])
    ensures block.first + |block.words| == |words| ==> Cut(block.(words := block.words + [w]), words + [w])
  {
  }

  /** A word grows the last block. */
  lemma ChainedGrow(blocks: seq<Block>, words: seq<Word>, w: Word)
    requires Chained(blocks, words)
    ensures Chained(Grown(blocks, w), words + [w])
  {
    hide Cut;
    forall b | 0 <= b < |blocks| ensures Cut(Grown(blocks, w)[b], words + [w]) {
      CutExtends(blocks[b], words, w);
    }
  }

  lemma CutOne(words: seq<Word>, slot: nat, w: Word)
    ensures Cut(Block(slot, |words|, [w]), words + [w])
  {
  }

  /** A word starts a new block. */
  lemma ChainedSnoc(blocks: seq<Block>, words: seq<Word>, slot: nat, w: Word)
    requires Chained(blocks, words) && blocks[|blocks| - 1].slot < slot
    ensures Chained(blocks + [Block(slot, |words|, [w])], words + [w])
  {
    var longer := blocks + [Block(slot, |words|, [w])];
    CutOne(words, slot, w);
    hide Cut;
    forall b | 0 <= b < |longer| ensures Cut(longer[b], words + [w]) {
      if b < |blocks| {
        CutExtends(blocks[b], words, w);
      }
    }
  }

  lemma LeadsGrow(stored: map<Word, nat>, blocks: seq<Block>, w: Word)
    requires blocks != [] && Leads(stored, blocks) && blocks[|blocks| - 1].words != []
    ensures Leads(stored, Grown(blocks, w))
  {
    var grown := Grown(blocks, w);
    forall k | k in stored ensures LedBy(stored[k], k, grown) {
      assert LedBy(stored[k], k, blocks);
      var b :| 0 <= b < |blocks| && blocks[b].words != [] && blocks[b].words[0] == k && blocks[b].slot == stored[k];
      assert grown[b].words != [] && grown[b].words[0] == k && grown[b].slot == stored[k];
    }
  }

  lemma LeadsSnoc(stored: map<Word, nat>, blocks: seq<Block>, block: Block)
    requires Leads(stored, blocks) && block.words != []
    requires forall b :: 0 <= b < |blocks| && blocks[b].words != [] ==> blocks[b].words[0] != block.words[0]
    ensures Leads(stored[block.words[0] := block.slot], blocks + [block])
  {
    var more, longer := stored[block.words[0] := block.slot], blocks + [block];
    forall k | k in more ensures LedBy(more[k], k, longer) {
      if k == block.words[0] {
        assert longer[|blocks|] == block;
      } else {
        assert LedBy(stored[k], k, blocks);
        var b :| 0 <= b < |blocks| && blocks[b].words != [] && blocks[b].words[0] == k && blocks[b].slot == stored[k];
        assert longer[b] == blocks[b];
      }
    }
  }

  /** The count makes a block finished. */
  lemma CountLays(t: Tree, before: seq<bv8>, after: seq<bv8>, blocks: seq<Block>, blockSize: nat, begin: nat)
    requires blocks != [] && begin == Place(blocks[|blocks| - 1].slot, blockSize)
    requires AllLaid(t, before, blocks[..|blocks| - 1], blockSize, begin)
    requires begin + BLOCK_DATA_OFFSET <= |after| == |before| && after[..begin] == before[..begin]
    requires var last := blocks[|blocks| - 1];
      && EndOf(begin, BlockCode(t, [], last.words)) <= 8 * |after|
      && HoldsContent(after, begin, last.first, []) && IntAt(after, begin + 4) == |last.words|
    requires AllFitAlone(t, blocks[|blocks| - 1].words, blockSize)
      ==> Shown(t, after, blocks[|blocks| - 1], blockSize, |after|)
    requires Held(t, after, blocks[|blocks| - 1], blockSize) <==> Held(t, before, blocks[|blocks| - 1], blockSize)
    ensures AllLaid(t, after, blocks, blockSize, |after|)
    ensures AllHeld(t, after, blocks, blockSize) <==> AllHeld(t, before, blocks, blockSize)
  {
    var m := |blocks| - 1;
    hide IntAt, AllLaid, AllHeld, BlockCode, Held, HoldsContent, AllFitAlone, Shown;
    AllFrame(t, before, after, blocks[..m], blockSize, begin);
    AllLaidSnoc(t, after, blocks[..m], blockSize, begin, blocks[m], |after|);
    AllHeldSnoc(t, before, blocks, blockSize);
    AllHeldSnoc(t, after, blocks, blockSize);
    assert blocks[..m] + [blocks[m]] == blocks;
  }

  /** Every block takes one slot and holds a word. */
  ghost predicate Flat(blocks: seq<Block>, blockCount: nat) {
    && |blocks| == blockCount
    && forall b :: 0 <= b < |blocks| ==> blocks[b].slot == b && blocks[b].words != []
  }

  lemma FlatGrown(blocks: seq<Block>, blockCount: nat, w: Word)
    requires blocks != []
    ensures blocks[|blocks| - 1].words != [] ==> (Flat(Grown(blocks, w), blockCount) <==> Flat(blocks, blockCount))
    ensures |blocks| == 1 == blockCount && blocks[0].slot == 0 ==> Flat(Grown(blocks, w), blockCount)
  {
    var grown := Grown(blocks, w);
    forall b | 0 <= b < |blocks|
      ensures grown[b].slot == blocks[b].slot && (b < |blocks| - 1 ==> grown[b] == blocks[b])
    {
    }
    if Flat(grown, blockCount) && blocks[|blocks| - 1].words != [] {
      forall b | 0 <= b < |blocks| ensures blocks[b].slot == b && blocks[b].words != [] {
        assert grown[b].slot == b && grown[b].words != [];
      }
    }
  }

  /** The slots from `from` up to `to` have room for the words, and without the last they would
      not have. */
  ghost predicate Takes(t: Tree, words: seq<Word>, from: nat, to: nat, blockSize: nat) {
    && EndOf(Place(from, blockSize), BlockCode(t, [], words)) <= 8 * Place(to, blockSize)
    && 8 * Place(to, blockSize) - 8 * blockSize < EndOf(Place(from, blockSize), BlockCode(t, [], words))
  }

  lemma TakesMeans(t: Tree, words: seq<Word>, from: nat, to: nat, blockSize: nat)
    ensures var slots := to - from;
      Takes(t, words, from, to, blockSize) <==>
        8 * (slots * blockSize) - 8 * blockSize < 64 + |BlockCode(t, [], words)| <= 8 * (slots * blockSize)
  {
    assert (to - from) * blockSize == to * blockSize - from * blockSize;
  }

  /** Every block before the last takes just the slots it needs. */
  ghost predicate Packed(t: Tree, blocks: seq<Block>, blockSize: nat) {
    forall b :: 0 <= b < |blocks| - 1 ==> Takes(t, blocks[b].words, blocks[b].slot, blocks[b + 1].slot, blockSize)
  }

  lemma PackedGrown(t: Tree, blocks: seq<Block>, w: Word, blockSize: nat)
    requires blocks != [] && Packed(t, blocks, blockSize)
    ensures Packed(t, Grown(blocks, w), blockSize)
  {
    hide Takes;
  }

  lemma PackedSnoc(t: Tree, blocks: seq<Block>, slot: nat, first: nat, w: Word, blockSize: nat)
    requires blocks != [] && Packed(t, blocks, blockSize)
    requires var m := |blocks| - 1; Takes(t, blocks[m].words, blocks[m].slot, slot, blockSize)
    ensures Packed(t, Grown(blocks + [Block(slot, first, [])], w), blockSize)
  {
    hide Takes;
  }

  function WordsOf(blocks: seq<Block>): (cuts: seq<seq<Word>>)
    ensures |cuts| == |blocks| && forall b :: 0 <= b < |blocks| ==> cuts[b] == blocks[b].words
  {
    seq(|blocks|, b requires 0 <= b < |blocks| => blocks[b].words)
  }

  lemma WordsGrown(blocks: seq<Block>, w: Word)
    requires blocks != []
    ensures WordsOf(Grown(blocks, w)) == NextCuts(WordsOf(blocks), w, true)
  {
  }

  lemma GrownSnoc(blocks: seq<Block>, slot: nat, first: nat, w: Word)
    ensures Grown(blocks + [Block(slot, first, [])], w) == blocks + [Block(slot, first, [w])]
  {
    assert [] + [w] == [w];
  }

  lemma WordsSnoc(blocks: seq<Block>, slot: nat, first: nat, w: Word)
    requires blocks != []
    ensures WordsOf(Grown(blocks + [Block(slot, first, [])], w)) == NextCuts(WordsOf(blocks), w, false)
  {
    GrownSnoc(blocks, slot, first, w);
  }

  /** A new block keeps the map flat if it is not expanded. */
  lemma FlatSnoc(blocks: seq<Block>, slot: nat, first: nat, w: Word, blockCount: nat)
    requires slot < blockCount
    ensures Flat(Grown(blocks + [Block(slot, first, [])], w), blockCount)
       <==> (Flat(blocks, slot) && blockCount == slot + 1)
  {
    GrownSnoc(blocks, slot, first, w);
    var longer := blocks + [Block(slot, first, [w])];
    assert longer[|blocks|] == Block(slot, first, [w]);
    forall b | 0 <= b < |blocks| ensures longer[b] == blocks[b] {
    }
    if Flat(longer, blockCount) {
      forall b | 0 <= b < |blocks| ensures blocks[b].slot == b && blocks[b].words != [] {
        assert longer[b].slot == b && longer[b].words != [];
      }
    }
  }

  /** The last word of the last block is the last word. */
  lemma LastWord(blocks: seq<Block>, words: seq<Word>)
    requires Chained(blocks, words)
    ensures LastOf([], blocks[|blocks| - 1].words) == if words == [] then [] else words[|words| - 1]
    ensures blocks != [] && (words != [] ==> blocks[|blocks| - 1].words != [])
    ensures blocks[|blocks| - 1].first + |blocks[|blocks| - 1].words| == |words|
  {
  }

  /** What the leaders hold before the word at position `|words|` is added: the first word is
      stored ahead of its block. */
  ghost predicate Ahead(stored: map<Word, nat>, blocks: seq<Block>, words: seq<Word>, item: Word) {
    if words == [] then stored == map[item := 0] && blocks == [Block(0, 0, [])] else Leads(stored, blocks)
  }

  /** Words before the next one do not lead its block. */
  lemma NewLeader(stored: map<Word, nat>, blocks: seq<Block>, words: seq<Word>, item: Word)
    requires Chained(blocks, words) && Increasing(words + [item]) && Ahead(stored, blocks, words, item)
    ensures Leads(stored - {item}, blocks)
    ensures forall b :: 0 <= b < |blocks| && blocks[b].words != [] ==> blocks[b].words[0] != item
  {
    forall b | 0 <= b < |blocks| && blocks[b].words != [] ensures blocks[b].words[0] != item {
      var i := blocks[b].first;
      assert blocks[b].words[0] == words[i] == (words + [item])[i] && (words + [item])[|words|] == item;
      LessAsymmetric(words[i], item);
    }
  }

  lemma FirstLeads(item: Word)
    ensures Leads(map[item := 0], [Block(0, 0, [item])])
  {
    var blocks := [Block(0, 0, [item])];
    assert blocks[0].words != [] && blocks[0].words[0] == item && blocks[0].slot == 0;
  }

  /** The word went into the last block. */
  lemma Joined(stored: map<Word, nat>, blocks: seq<Block>, words: seq<Word>, item: Word)
    requires Chained(blocks, words) && Ahead(stored, blocks, words, item)
    ensures Chained(Grown(blocks, item), words + [item]) && Leads(stored, Grown(blocks, item))
  {
    hide Chained, Leads;
    ChainedGrow(blocks, words, item);
    if words == [] {
      assert Grown(blocks, item) == [Block(0, 0, [item])] by {
        GrownSnoc([], 0, 0, item);
        assert [] + blocks == blocks;
      }
      FirstLeads(item);
    } else {
      LastWord(blocks, words);
      LeadsGrow(stored, blocks, item);
    }
  }

  /** The word went into a block of its own. */
  lemma Split(stored: map<Word, nat>, blocks: seq<Block>, words: seq<Word>, item: Word, slot: nat)
    requires Chained(blocks, words) && Ahead(stored, blocks, words, item) && Increasing(words + [item])
    requires blocks[|blocks| - 1].slot < slot
    ensures var longer := Grown(blocks + [Block(slot, |words|, [])], item);
      Chained(longer, words + [item]) && Leads(stored[item := slot], longer)
  {
    hide Chained, Leads, Increasing;
    GrownSnoc(blocks, slot, |words|, item);
    ChainedSnoc(blocks, words, slot, item);
    NewLeader(stored, blocks, words, item);
    LeadsSnoc(stored - {item}, blocks, Block(slot, |words|, [item]));
    assert (stored - {item})[item := slot] == stored[item := slot];
  }

  lemma ChainedStart()
    ensures Chained([Block(0, 0, [])], [])
  {
  }

  lemma NothingLaid(t: Tree, bytes: seq<bv8>, blockSize: nat)
    ensures Place(0, blockSize) == 0 && AllLaid(t, bytes, [], blockSize, |bytes|) && AllHeld(t, bytes, [], blockSize)
  {
  }

  lemma IncreasingPrefix(words: seq<Word>, n: nat)
    requires Increasing(words) && n <= |words|
    ensures Increasing(words[..n])
  {
  }

  /** The first index written at every slot. */
  function FirstIndices(bytes: seq<bv8>, blockSize: nat, blockCount: nat): (r: seq<int>)
    requires BLOCK_DATA_OFFSET <= blockSize && |bytes| == Place(blockCount, blockSize)
    ensures |r| == blockCount
  {
    seq(blockCount, b requires 0 <= b < blockCount =>
      PlaceMonotone(b, blockCount, blockSize);
      IntAt(bytes, Place(b, blockSize)))
  }

  lemma LastBlockFull(left: int, count: int)
    requires left == count && 0 < count
    ensures left % count == 0
  {
  }

  ghost function Firsts(blocks: seq<Block>): seq<int> {
    seq(|blocks|, b requires 0 <= b < |blocks| => blocks[b].first)
  }

  lemma {:induction false} FirstsBelow(blocks: seq<Block>, words: seq<Word>, a: nat, b: nat)
    requires Chained(blocks, words) && a < b < |blocks| && forall b :: 0 <= b < |blocks| ==> blocks[b].words != []
    ensures blocks[a].first < blocks[b].first
    decreases b - a
  {
    assert blocks[a].words != [];
    if a + 1 < b {
      FirstsBelow(blocks, words, a + 1, b);
    }
  }

  lemma FirstsRise(blocks: seq<Block>, words: seq<Word>, blockCount: nat)
    requires Chained(blocks, words) && Flat(blocks, blockCount)
    ensures blocks != [] && blocks[0].first == 0
    ensures Rising(Firsts(blocks)) && |Firsts(blocks)| == |blocks|
    ensures forall b :: 0 <= b < |blocks| ==> Firsts(blocks)[b] == blocks[b].first
  {
    forall a, b | 0 <= a < b < |blocks| ensures blocks[a].first < blocks[b].first {
      FirstsBelow(blocks, words, a, b);
    }
  }

  lemma WithinBlock(blocks: seq<Block>, words: seq<Word>, b: nat, index: nat)
    requires Chained(blocks, words) && b < |blocks| && blocks[b].first <= index < |words|
    requires b + 1 < |blocks| ==> index < blocks[b + 1].first
    ensures index < blocks[b].first + |blocks[b].words| && words[index] == blocks[b].words[index - blocks[b].first]
  {
  }

  lemma GrownBlocks(t: Tree, blocks: seq<Block>, w: Word, blockSize: nat, blockCount: nat)
    requires blocks != [] && Packed(t, blocks, blockSize)
    ensures Packed(t, Grown(blocks, w), blockSize)
    ensures WordsOf(Grown(blocks, w)) == NextCuts(WordsOf(blocks), w, true)
    ensures blocks[|blocks| - 1].words != [] ==> (Flat(Grown(blocks, w), blockCount) <==> Flat(blocks, blockCount))
    ensures |blocks| == 1 == blockCount && blocks[0].slot == 0 ==> Flat(Grown(blocks, w), blockCount)
  {
    hide Packed, WordsOf, NextCuts, Flat, Grown;
    PackedGrown(t, blocks, w, blockSize);
    WordsGrown(blocks, w);
    FlatGrown(blocks, blockCount, w);
  }

  lemma AnotherBlock(t: Tree, blocks: seq<Block>, slot: nat, first: nat, w: Word, blockSize: nat, blockCount: nat)
    requires blocks != [] && Packed(t, blocks, blockSize) && slot < blockCount
    requires var m := |blocks| - 1; Takes(t, blocks[m].words, blocks[m].slot, slot, blockSize)
    ensures var longer := Grown(blocks + [Block(slot, first, [])], w);
      && Packed(t, longer, blockSize) && WordsOf(longer) == NextCuts(WordsOf(blocks), w, false)
      && (Flat(longer, blockCount) <==> (Flat(blocks, slot) && blockCount == slot + 1))
  {
    hide Packed, WordsOf, NextCuts, Flat, Grown, Takes;
    PackedSnoc(t, blocks, slot, first, w, blockSize);
    WordsSnoc(blocks, slot, first, w);
    FlatSnoc(blocks, slot, first, w, blockCount);
  }

  // ---- What a scan finds ----

  /** The first word that is not below the key. */
  ghost function StopAt(words: seq<Word>, key: Word): (s: nat)
    ensures s <= |words| && (s < |words| ==> !Less(words[s], key))
    ensures forall i :: 0 <= i < s ==> Less(words[i], key)
  {
    if words == [] || !Less(words[0], key) then 0 else
      var s := StopAt(words[1..], key);
      assert forall i :: 0 < i <= s ==> words[i] == words[1..][i - 1];
      1 + s
  }

  lemma StopUnique(words: seq<Word>, key: Word, s: nat)
    requires s <= |words| && (s < |words| ==> !Less(words[s], key))
    requires forall i :: 0 <= i < s ==> Less(words[i], key)
    ensures StopAt(words, key) == s
  {
  }

  /** The outcome of a scan of words from index `start` on. */
  ghost function Looked(words: seq<Word>, start: nat, key: Word): Option<nat> {
    var s := StopAt(words, key);
    if s < |words| && words[s] == key then Some(start + s) else None
  }

  /** A scan of `n` words, of which these can be read, gets to its end. */
  ghost predicate Stops(words: seq<Word>, n: nat, key: Word) {
    StopAt(words, key) < |words| || |words| == n
  }

  /** In the only block that can hold the key a scan decides. */
  lemma LookedDecides(items: seq<Word>, start: nat, words: seq<Word>, key: Word)
    requires Increasing(items) && words != [] && start + |words| <= |items| && words == items[start..start + |words|]
    requires AtMost(words[0], key) && (start + |words| < |items| ==> Less(key, items[start + |words|]))
    ensures match Looked(words, start, key)
            case Some(i) => i < |items| && items[i] == key
            case None => key !in items
  {
    var s := StopAt(words, key);
    var c := if s < |words| then s + 1 else s;
    hide Increasing, Less, AtMost, StopAt;
    if 1 < c {
      assert words[c - 2] == items[start + c - 2];
    }
    LessIrreflexive(key);
    ScanDecides(items, start, start + |words|, |words|, c, words[c - 1], key);
  }

  /** Words that are where they belong are read back. */
  lemma HeldWordsAt(t: Tree, bytes: seq<bv8>, begin: nat, first: nat, words: seq<Word>)
    requires HoldsContent(bytes, begin, first, BlockCode(t, [], words)) && Ordered(t) && AllSpelled(t, words)
    ensures WordsAt(t, [], Bits(bytes)[EndOf(begin, [])..], |words|) == words
  {
    hide Bits, IntAt, BlockCode, Ordered, Spells, WordsAt;
    var at, content := EndOf(begin, []), BlockCode(t, [], words);
    assert Bits(bytes)[at..] == content + Bits(bytes)[at + |content|..];
    WordsAtInverts(t, [], words, Bits(bytes)[at + |content|..]);
  }

  lemma BlockSpelled(t: Tree, blocks: seq<Block>, words: seq<Word>, b: nat)
    requires Chained(blocks, words) && AllSpelled(t, words) && b < |blocks|
    ensures AllSpelled(t, blocks[b].words) && blocks[b].first + |blocks[b].words| <= |words|
    ensures blocks[b].words == words[blocks[b].first..blocks[b].first + |blocks[b].words|]
  {
    forall i | 0 <= i < |blocks[b].words| ensures Spells(t, blocks[b].words[i]) {
      assert blocks[b].words[i] == words[blocks[b].first + i];
    }
  }

  lemma FirstIsLed(stored: map<Word, nat>, blocks: seq<Block>, words: seq<Word>)
    requires Chained(blocks, words) && Leads(stored, blocks) && words != []
    ensures words[0] in stored
  {
    if blocks[0].words != [] {
      assert blocks[0].words[0] == words[0];
    } else {
      assert blocks[1].words[0] == words[0];
    }
  }

  lemma Beyond(stored: map<Word, nat>, key: Word, leader: Word, next: Word)
    requires GreatestAtMost(stored, key, leader) && next in stored && Less(leader, next)
    ensures Less(key, next)
  {
    LessAsymmetric(leader, next);
    LessTotal(key, next);
  }

  /** The first words of neighbouring blocks. */
  lemma Neighbours(stored: map<Word, nat>, blocks: seq<Block>, words: seq<Word>, b: nat)
    requires Chained(blocks, words) && Leads(stored, blocks) && b < |blocks| && blocks[b].words != []
    ensures var start, end := blocks[b].first, blocks[b].first + |blocks[b].words|;
      start < end <= |words| && words[start] == blocks[b].words[0] && (end < |words| ==> words[end] in stored)
  {
    var start, end := blocks[b].first, blocks[b].first + |blocks[b].words|;
    assert words[start] == words[start..end][0];
    if end < |words| {
      assert b + 1 < |blocks| && blocks[b + 1].words != [];
      var next := blocks[b + 1];
      assert words[end] == words[next.first..next.first + |next.words|][0];
    }
  }

  lemma NotBefore(blocks: seq<Block>, words: seq<Word>, b: nat, key: Word)
    requires Chained(blocks, words) && Increasing(words) && b < |blocks| && blocks[b].words != []
    requires AtMost(blocks[b].words[0], key)
    ensures words != [] && !Less(key, words[0])
  {
    var first := blocks[b].first;
    assert blocks[b].words[0] == words[first];
    if first == 0 || words[first] == key {
      LessIrreflexive(key);
    }
    if Less(key, words[0]) {
      if 0 < first {
        LessTransitive(key, words[0], words[first]);
      }
      LessAsymmetric(key, words[first]);
    }
  }

  /** The greatest leader at or below a key leads the only block that can hold it. */
  lemma LeaderBlock(stored: map<Word, nat>, blocks: seq<Block>, words: seq<Word>, key: Word, leader: Word)
    returns (b: nat)
    requires Chained(blocks, words) && Leads(stored, blocks) && Increasing(words)
    requires GreatestAtMost(stored, key, leader)
    ensures b < |blocks| && blocks[b].slot == stored[leader]
    ensures blocks[b].words != [] && blocks[b].words[0] == leader && AtMost(leader, key)
    ensures var end := blocks[b].first + |blocks[b].words|; end < |words| ==> Less(key, words[end])
  {
    hide Chained, Less, AtMost;
    assert LedBy(stored[leader], leader, blocks);
    b :| 0 <= b < |blocks| && blocks[b].words != [] && blocks[b].words[0] == leader && blocks[b].slot == stored[leader];
    var end := blocks[b].first + |blocks[b].words|;
    Neighbours(stored, blocks, words, b);
    if end < |words| {
      Beyond(stored, key, leader, words[end]);
    }
  }

  lemma PrefixOfLonger(u: Word, v: Word)
    ensures u + [0] <= v ==> u <= v
  {
    if u + [0] <= v {
      assert forall i :: 0 <= i < |u| ==> (u + [0])[i] == u[i];
    }
  }

  lemma NextIsNoPrefix(words: seq<Word>, item: Word)
    requires Increasing(words + [item])
    ensures !(item + [0] <= LastOf([], words)) && (words != [] ==> !(item <= LastOf([], words)))
  {
    if words != [] {
      var last := words[|words| - 1];
      assert (words + [item])[|words| - 1] == last && (words + [item])[|words|] == item;
      GreaterIsNoPrefix(last, item);
      PrefixOfLonger(item, last);
    }
  }

  lemma SameBegin(before: seq<bv8>, after: seq<bv8>, from: nat, to: nat, limit: nat)
    requires SameOutside(before, after, from, to) && limit <= from && limit <= |before|
    ensures |after| == |before| && after[..limit] == before[..limit]
  {
  }

  lemma SameBefore(a: seq<bv8>, b: seq<bv8>, c: seq<bv8>, to: nat)
    requires a <= b && SameOutside(b, c, |a|, to)
    ensures |c| == |b| && c[..|a|] == a
  {
  }

  /** New bytes are blank. */
  lemma BlankGrown(bytes: seq<bv8>, n: nat, from: nat)
    requires Blank(bytes, from, 8 * |bytes|)
    ensures Blank(bytes + seq(n, _ => 0), from, 8 * (|bytes| + n))
  {
    var more := seq(n, _ => 0 as bv8);
    BitsConcat(bytes, more);
    forall p | from <= p < 8 * (|bytes| + n) ensures !Bits(bytes + more)[p] {
      if 8 * |bytes| <= p {
        assert !Bits(more)[p - 8 * |bytes|];
      }
    }
  }

  /** More memory behind an empty last block. */
  lemma SlotAdded(t: Tree, bytes: seq<bv8>, n: nat, blocks: seq<Block>, blockSize: nat, begin: nat)
    requires blocks != [] && begin == Place(blocks[|blocks| - 1].slot, blockSize) && blocks[|blocks| - 1].words == []
    requires AllLaid(t, bytes, blocks[..|blocks| - 1], blockSize, begin)
    requires HoldsContent(bytes, begin, blocks[|blocks| - 1].first, [])
    requires Blank(bytes, EndOf(begin, []), 8 * |bytes|)
    ensures var after := bytes + seq(n, _ => 0);
      && AllLaid(t, after, blocks[..|blocks| - 1], blockSize, begin)
      && (AllHeld(t, after, blocks, blockSize) <==> AllHeld(t, bytes, blocks, blockSize))
      && HoldsContent(after, begin, blocks[|blocks| - 1].first, [])
      && Blank(after, EndOf(begin, []), 8 * |bytes|) && Blank(after, EndOf(begin, []), 8 * |after|)
  {
    assert BlockCode(t, [], []) == [];
    assert begin + BLOCK_DATA_OFFSET <= |bytes|;
    hide AllLaid, AllHeld, HoldsContent, Blank, BlockCode, Place;
    var after := bytes + seq(n, _ => 0);
    HoldsFrame(bytes, after, begin, |bytes|, blocks[|blocks| - 1].first, []);
    BlankGrown(bytes, n, EndOf(begin, []));
    BlankPart(after, EndOf(begin, []), 8 * |bytes|, 8 * |after|);
    AllFrame(t, bytes, after, blocks[..|blocks| - 1], blockSize, begin);
    AllHeldSnoc(t, bytes, blocks, blockSize);
    AllHeldSnoc(t, after, blocks, blockSize);
  }

  class PrefixMap {
    const memory: Memory
    const blockSize: nat
    const leaders: RadixTree
    const mem: seq<Byte>
    ghost const tree: Tree
    var blockCount: nat
    var size: nat
    var reverseLookup: seq<int>
    ghost const items: seq<Word>
    ghost var blocks: seq<Block>

    ghost predicate HasTree() {
      tree.Node? && Ordered(tree) && Represents(mem, SYMBOL_BOUND, tree)
    }

    /** The words are cut as the layout says, and every block takes just the slots it needs; no
        block is expanded if and only if every word fits a block of its own. */
    ghost predicate AsLaidOut()
      reads `blockCount, `blocks
    {
      && WordsOf(blocks) == Cuts(tree, items, blockSize)
      && (Flat(blocks, blockCount) <==> AllFitAlone(tree, items, blockSize))
      && blocks != [] && Packed(tree, blocks, blockSize)
      && var last := blocks[|blocks| - 1]; Takes(tree, last.words, last.slot, blockCount, blockSize)
    }

    /** All blocks are finished. */
    ghost predicate Finished()
      reads `blockCount, `blocks, memory
    {
      && HasTree() && BLOCK_DATA_OFFSET <= blockSize
      && |memory.bytes| == Place(blockCount, blockSize)
      && AllLaid(tree, memory.bytes, blocks, blockSize, |memory.bytes|)
    }

    /** The words are in the blocks of the layout, with leaders and headers. */
    ghost predicate Built()
      reads this, memory, leaders
    {
      && Finished() && leaders.Valid()
      && items != [] && size == |items| && Increasing(items) && AllSpelled(tree, items)
      && Chained(blocks, items) && Leads(leaders.Stored(), blocks) && AsLaidOut()
      && (reverseLookup == [] || reverseLookup == FirstIndices(memory.bytes, blockSize, blockCount))
    }

    /** All blocks hold their words. */
    ghost predicate Intact()
      reads `blocks, memory
    {
      AllHeld(tree, memory.bytes, blocks, blockSize)
    }

    /** And every block holds its words. */
    ghost predicate Valid()
      reads this, memory, leaders
    {
      Built() && Intact()
    }

    lemma NothingBuilt()
      requires HasTree() && BLOCK_DATA_OFFSET <= blockSize && memory.bytes == [] && blocks == [] && blockCount == 0
      ensures Finished() && Intact()
    {
      NothingLaid(tree, memory.bytes, blockSize);
    }

    /** The builder stands on the last block, at the end of the memory; the other blocks
        are finished. */
    ghost predicate Standing(cb: BlockBuilder)
      reads `blockCount, `blocks, memory, cb
    {
      && HasTree() && BLOCK_DATA_OFFSET <= blockSize && blocks != []
      && cb.memory == memory && cb.Valid() && cb.mem == mem && cb.tree == tree
      && var m := |blocks| - 1;
      && cb.added == blocks[m].words && cb.firstIndex == blocks[m].first
      && cb.begin == Place(blocks[m].slot, blockSize) && blocks[m].slot < blockCount
      && cb.begin + cb.size == |memory.bytes| == Place(blockCount, blockSize)
      && AllLaid(tree, memory.bytes, blocks[..m], blockSize, cb.begin)
    }

    lemma BuilderHolds(cb: BlockBuilder)
      requires Standing(cb)
      ensures blocks != [] && cb.added == blocks[|blocks| - 1].words && cb.last == LastOf([], cb.added)
      ensures blocks[|blocks| - 1].slot < blockCount && cb.tree == tree && BLOCK_DATA_OFFSET <= blockSize
    {
    }

    /** The builder's last slot is needed. */
    ghost predicate Snug(cb: BlockBuilder)
      reads cb
    {
      8 * cb.size - 8 * blockSize < 8 * BLOCK_DATA_OFFSET + |cb.Content()|
    }

    /** The builder is where the layout says. */
    ghost predicate At(cb: BlockBuilder, r: Reached)
      reads cb
    {
      match r
      case Closed => cb.pos == 8 * cb.size && !AllFitAlone(tree, cb.added, blockSize) && Snug(cb)
      case Open(last, pos, synced) =>
        cb.size == blockSize && cb.last == last && cb.pos == pos && (cb.InSync() <==> synced)
    }

    /** Only a block of words that do not fit alone has more than one slot, and then it needs them. */
    ghost predicate Sized(cb: BlockBuilder)
      reads cb
    {
      (AllFitAlone(tree, cb.added, blockSize) ==> cb.size == blockSize) && Snug(cb)
    }

    lemma AtSized(cb: BlockBuilder, r: Reached)
      requires At(cb, r)
      ensures Sized(cb)
    {
    }

    lemma BuilderTakes(cb: BlockBuilder)
      requires Standing(cb) && Sized(cb)
      ensures blocks != []
      ensures var last := blocks[|blocks| - 1]; Takes(tree, last.words, last.slot, blockCount, blockSize)
    {
      hide AllLaid, HoldsContent, Blank, BlockCode, Place, HasTree, Shows, Drawn, AllFitAlone;
    }

    lemma FitsHere(cb: BlockBuilder, r: Reached, item: Word)
      requires At(cb, r) && cb.tree == tree
      ensures cb.Fits(item) <==> Joins(tree, r, item, blockSize)
      ensures cb.Fits(item) ==> (cb.InSync() <==> KeptFor(tree, r, item, blockSize))
    {
      cb.CodeParts(item, CommonPrefix(cb.last, item));
    }

    method Finish(cb: BlockBuilder)
      requires Standing(cb) && Sized(cb) && |cb.added| < 0x8000_0000
      modifies memory
      ensures Finished() && (Intact() <==> old(Intact()))
    {
      hide HasTree, AllLaid, AllHeld, HoldsContent, Blank, SameOutside, IntAt, BlockCode, BlockBuilder.InSync, Place,
        Shows, Drawn, AllFitAlone;
      ghost var before := memory.bytes;
      cb.WriteCount();
      SameBegin(before, memory.bytes, cb.begin + 4, cb.begin + BLOCK_DATA_OFFSET, cb.begin);
      CountLays(tree, before, memory.bytes, blocks, blockSize, cb.begin);
    }

    /** A new block of one slot at the end of the memory. */
    method StartBlock(index: nat) returns (cb: BlockBuilder)
      requires Finished() && index < 0x8000_0000
      modifies memory, `blockCount, `blocks
      ensures Standing(cb) && At(cb, START) && fresh(cb) && cb.added == [] && (Intact() <==> old(Intact()))
      ensures blocks == old(blocks) + [Block(old(blockCount), index, [])] && blockCount == old(blockCount) + 1
    {
      hide AllLaid, AllHeld, HoldsContent, Blank, SameOutside, BlockCode, BlockBuilder.Valid, Place, BitPtr.Position,
        Ordered, Represents;
      ghost var bytes := memory.bytes;
      PlaceNext(blockCount, blockSize);
      memory.Grow(blockSize);
      ghost var grown := memory.bytes;
      BlankGrown(bytes, blockSize, 8 * |bytes| + 8 * BLOCK_DATA_OFFSET);
      cb := new BlockBuilder(memory, |memory.bytes| - blockSize, blockSize, index, mem, tree);
      SameBefore(bytes, grown, memory.bytes, |bytes| + BLOCK_DATA_OFFSET);
      AllFrame(tree, bytes, memory.bytes, blocks, blockSize, |bytes|);
      blocks := blocks + [Block(blockCount, index, [])];
      blockCount := blockCount + 1;
      assert blocks[..|blocks| - 1] == old(blocks);
      AllHeldSnoc(tree, memory.bytes, blocks, blockSize);
    }

    /** `append_block` */
    method AppendBlock(index: nat, oldBuilder: BlockBuilder?) returns (cb: BlockBuilder)
      requires if oldBuilder == null then Finished()
               else Standing(oldBuilder) && Sized(oldBuilder) && |oldBuilder.added| < 0x8000_0000
      requires index < 0x8000_0000
      modifies memory, `blockCount, `blocks
      ensures Standing(cb) && At(cb, START) && fresh(cb) && cb.added == [] && (Intact() <==> old(Intact()))
      ensures blocks == old(blocks) + [Block(old(blockCount), index, [])] && blockCount == old(blockCount) + 1
    {
      hide Standing, At, Intact, Finished, Sized;
      if oldBuilder != null {
        Finish(oldBuilder);
      }
      cb := StartBlock(index);
    }

    /** The builder adds a word to its block, or refuses it. Added behind a lagging pointer, it
        spoils the block. */
    method AddTo(cb: BlockBuilder, item: Word) returns (ok: bool)
      requires Standing(cb) && !(item + [0] <= cb.last) && (cb.InSync() || !(item <= cb.last))
      modifies memory, cb, `blocks
      ensures Standing(cb) && cb.begin == old(cb.begin) && cb.size == old(cb.size)
      ensures ok <==> old(cb.Fits(item))
      ensures !ok ==> blocks == old(blocks) && cb.pos == old(cb.pos) && cb.bitp == old(cb.bitp)
      ensures !ok ==> cb.added == old(cb.added) && cb.last == old(cb.last) && (Intact() <==> old(Intact()))
      ensures !ok ==> (Snug(cb) <==> old(Snug(cb)))
      ensures ok ==> blocks == Grown(old(blocks), item)
      ensures ok ==> cb.added == old(cb.added) + [item] && cb.last == item
      ensures ok ==> cb.pos == old(cb.pos) + old(cb.Needs(item))
      ensures ok ==> (Intact() <==> (old(Intact()) && old(cb.InSync())))
      ensures ok ==> (cb.InSync() <==> (old(cb.InSync()) && KeptUp(tree, old(cb.last), old(cb.pos), item)))
    {
      hide AllLaid, AllHeld, HoldsContent, Blank, SameOutside, BlockCode, Place, HasTree, KeptUp, CommonPrefix,
        WordCode, Unary, Splice, Bits, Ordered, Represents, BitPtr.Position, FrontCode, Drawn, Shows;
      ghost var bytes, last, pos := memory.bytes, cb.last, cb.pos;
      assert HasTree();
      AllHeldSnoc(tree, bytes, blocks, blockSize);
      ok := cb.Add(item);
      SameBegin(bytes, memory.bytes, cb.begin + BLOCK_DATA_OFFSET, cb.begin + cb.size, cb.begin);
      AllFrame(tree, bytes, memory.bytes, blocks[..|blocks| - 1], blockSize, cb.begin);
      if ok {
        blocks := Grown(blocks, item);
        AllHeldSnoc(tree, memory.bytes, blocks, blockSize);
      }
    }

    lemma NoContent(cb: BlockBuilder)
      requires cb.added == []
      ensures cb.Content() == []
    {
    }

    /** One more slot of memory behind an empty block. */
    method AddSlot(cb: BlockBuilder)
      requires Standing(cb) && cb.added == []
      modifies memory, `blockCount
      ensures blockCount == old(blockCount) + 1 && |memory.bytes| == Place(blockCount, blockSize)
      ensures |memory.bytes| == |old(memory.bytes)| + blockSize
      ensures AllLaid(tree, memory.bytes, blocks[..|blocks| - 1], blockSize, cb.begin) && (Intact() <==> old(Intact()))
      ensures cb.Valid() && Blank(memory.bytes, cb.End(), 8 * |memory.bytes|)
    {
      hide AllLaid, AllHeld, HoldsContent, Blank, BlockCode, BlockBuilder.InSync, BitPtr.Position, Place, Ordered,
        Represents;
      ghost var bytes := memory.bytes;
      NoContent(cb);
      PlaceNext(blockCount, blockSize);
      memory.Grow(blockSize);
      SlotAdded(tree, bytes, blockSize, blocks, blockSize, cb.begin);
      blockCount := blockCount + 1;
    }

    /** `expand_block`: the builder's block takes one more slot. */
    method ExpandBlock(cb: BlockBuilder)
      requires Standing(cb) && cb.added == [] && cb.pos == 8 * BLOCK_DATA_OFFSET
      modifies memory, `blockCount, cb
      ensures Standing(cb) && cb.InSync() && cb.pos == 8 * BLOCK_DATA_OFFSET && cb.added == []
      ensures cb.size == old(cb.size) + blockSize && (Intact() <==> old(Intact()))
      ensures blockCount == old(blockCount) + 1
    {
      hide AllLaid, Intact, HoldsContent, Blank, BlockCode, Place, HasTree, Ordered, Represents;
      AddSlot(cb);
      cb.ExpandBy(blockSize);
      cb.Reset(|memory.bytes| - cb.size);
    }

    method CloseBlock(cb: BlockBuilder)
      requires Standing(cb)
      modifies cb`pos
      ensures Standing(cb) && cb.pos == 8 * cb.size
    {
      hide AllLaid, HoldsContent, Blank, BlockCode, Place, HasTree, Ordered, Represents, BitPtr.Position;
      cb.Close();
    }

    /** Adds a word to a new block; while the word does not fit, the block is expanded, and
        then closed for others. */
    method AddFresh(cb: BlockBuilder, item: Word)
      requires Standing(cb) && At(cb, START) && cb.added == []
      modifies memory, cb, `blockCount, `blocks
      ensures Standing(cb) && blocks == Grown(old(blocks), item) && (Intact() <==> old(Intact()))
      ensures At(cb, if FitsAlone(tree, item, blockSize) then Written(tree, START, item) else Closed)
      ensures old(blockCount) <= blockCount
      ensures FitsAlone(tree, item, blockSize) <==> blockCount == old(blockCount)
    {
      hide AllLaid, AllHeld, HoldsContent, Blank, BlockCode, Place, HasTree, KeptUp, WordCode, FrontCode, Ordered,
        Represents, CommonPrefix, Standing, BitPtr.Position;
      BuilderHolds(cb);
      var added := AddTo(cb, item);
      if !added {
        added := AddTo(cb, item);
        while !added
          invariant Standing(cb) && blocks == if added then Grown(old(blocks), item) else old(blocks)
          invariant (Intact() <==> old(Intact())) && old(blockCount) <= blockCount
          invariant blockCount == old(blockCount) ==> !added
          invariant !added ==> cb.InSync() && cb.pos == 8 * BLOCK_DATA_OFFSET && cb.added == [] && cb.last == []
          invariant !added ==> 8 * cb.size < 8 * BLOCK_DATA_OFFSET + |FrontCode(tree, [], item)|
          invariant added ==> 8 * cb.size - 8 * blockSize < 8 * BLOCK_DATA_OFFSET + |FrontCode(tree, [], item)|
          decreases 8 * BLOCK_DATA_OFFSET + |FrontCode(tree, [], item)| - 8 * cb.size
        {
          ExpandBlock(cb);
          BuilderHolds(cb);
          added := AddTo(cb, item);
        }
        CloseBlock(cb);
        BuilderHolds(cb);
        OneWordCode(tree, [], item);
        assert cb.added == [] + [item] == [item] && !FitsAlone(tree, cb.added[0], blockSize);
      }
    }

    /** A word that the current block refuses: it leads a new one. */
    method AddSeparate(cb: BlockBuilder, index: nat, item: Word) returns (next: BlockBuilder)
      requires Standing(cb) && Sized(cb) && |cb.added| < 0x8000_0000 && index < 0x8000_0000 && leaders.Valid()
      modifies memory, leaders, `blockCount, `blocks
      ensures Standing(next) && fresh(next) && leaders.Valid()
      ensures leaders.Stored() == old(leaders.Stored())[item := old(blockCount)]
      ensures blocks == Grown(old(blocks) + [Block(old(blockCount), index, [])], item)
      ensures At(next, if FitsAlone(tree, item, blockSize) then Written(tree, START, item) else Closed)
      ensures old(blockCount) < blockCount && (Intact() <==> old(Intact()))
      ensures FitsAlone(tree, item, blockSize) <==> blockCount == old(blockCount) + 1
    {
      hide Standing, At, Intact, Sized, FitsAlone, FrontCode, WordCode, CommonPrefix;
      leaders.Insert(item, blockCount);
      next := AppendBlock(index, cb);
      AddFresh(next, item);
    }

    /** One turn of the building loop. */
    method AddItem(cb: BlockBuilder, ghost words: seq<Word>, index: nat, item: Word, ghost r: Reached)
      returns (next: BlockBuilder)
      requires Standing(cb) && At(cb, r) && leaders.Valid() && Chained(blocks, words) && index == |words| < 0x8000_0000
      requires Increasing(words + [item])
      requires Ahead(leaders.Stored(), blocks, words, item)
      requires words == [] ==> blockCount == 1 && r == START
      requires Packed(tree, blocks, blockSize)
      modifies memory, cb, leaders, `blockCount, `blocks
      ensures Standing(next) && (next == cb || fresh(next)) && leaders.Valid()
      ensures At(next, After(tree, r, item, blockSize))
      ensures Intact() <==> (old(Intact()) && KeptFor(tree, r, item, blockSize))
      ensures Chained(blocks, words + [item]) && Leads(leaders.Stored(), blocks) && Packed(tree, blocks, blockSize)
      ensures blocks != [] && old(blocks) != []
        && WordsOf(blocks) == NextCuts(WordsOf(old(blocks)), item, Joins(tree, r, item, blockSize))
      ensures Flat(blocks, blockCount) <==> ((words == [] || old(Flat(blocks, blockCount)))
                                             && (Joins(tree, r, item, blockSize) || FitsAlone(tree, item, blockSize)))
    {
      hide AllLaid, AllHeld, HoldsContent, Blank, BlockCode, Place, HasTree, KeptUp, WordCode, FrontCode, Ordered,
        Represents, Leads, Chained, Increasing, Standing, CommonPrefix, Flat, AllFitAlone, NextCuts, WordsOf, Packed,
        Takes, Snug;
      next := cb;
      ghost var stored, before := leaders.Stored(), blocks;
      LastWord(blocks, words);
      NextIsNoPrefix(words, item);
      BuilderHolds(cb);
      FitsHere(cb, r, item);
      assert words == [] && FitsAlone(tree, item, blockSize) ==> cb.Fits(item);
      var added := AddTo(cb, item);
      if added {
        Joined(stored, before, words, item);
        GrownBlocks(tree, before, item, blockSize, blockCount);
      } else {
        BuilderHolds(cb);
        AtSized(cb, r);
        BuilderTakes(cb);
        ghost var slot := blockCount;
        next := AddSeparate(cb, index, item);
        Split(stored, before, words, item, slot);
        AnotherBlock(tree, before, slot, index, item, blockSize, blockCount);
      }
    }

    /** The building loop. */
    method AddAll(words: seq<Word>, first: BlockBuilder) returns (cb: BlockBuilder)
      requires words != [] && |words| < 0x8000_0000 && Increasing(words)
      requires Standing(first) && At(first, START) && Intact()
      requires leaders.Valid() && leaders.Stored() == map[words[0] := 0]
      requires blocks == [Block(0, 0, [])] && blockCount == 1
      modifies memory, first, leaders, `blockCount, `blocks
      ensures Standing(cb) && Sized(cb) && (cb == first || fresh(cb)) && leaders.Valid()
      ensures Intact() <==> KeepsUp(tree, words, blockSize)
      ensures Chained(blocks, words) && Leads(leaders.Stored(), blocks) && Packed(tree, blocks, blockSize)
      ensures WordsOf(blocks) == Cuts(tree, words, blockSize)
      ensures Flat(blocks, blockCount) <==> AllFitAlone(tree, words, blockSize)
    {
      hide Leads, Chained, Increasing, Standing, At, Sized, Intact, After, WordCode, FrontCode, KeptFor, FitsAlone,
        AllFitAlone, Flat, Joins, ReachedBy, KeepsUp, Cuts, NextCuts;
      ChainedStart();
      cb := first;
      var index := 0;
      NothingReached(tree, blockSize);
      assert words[..0] == [];
      while index < |words|
        invariant index <= |words| && Standing(cb) && (cb == first || fresh(cb)) && leaders.Valid()
        invariant At(cb, ReachedBy(tree, words[..index], blockSize))
        invariant Intact() <==> KeepsUp(tree, words[..index], blockSize)
        invariant Chained(blocks, words[..index]) && Packed(tree, blocks, blockSize)
        invariant index < |words| ==> Ahead(leaders.Stored(), blocks, words[..index], words[index])
        invariant 0 < index ==> Leads(leaders.Stored(), blocks)
        invariant index == 0 ==> blockCount == 1
        invariant WordsOf(blocks) == Cuts(tree, words[..index], blockSize)
        invariant 0 < index ==> (Flat(blocks, blockCount) <==> AllFitAlone(tree, words[..index], blockSize))
      {
        assert words[..index + 1] == words[..index] + [words[index]];
        IncreasingPrefix(words, index + 1);
        KeepsUpSnoc(tree, words[..index], words[index], blockSize);
        JoinerFitsAlone(tree, words[..index], words[index], blockSize);
        AllFitSnoc(tree, words[..index], words[index], blockSize);
        CutsSnoc(tree, words[..index], words[index], blockSize);
        cb := AddItem(cb, words[..index], index, words[index], ReachedBy(tree, words[..index], blockSize));
        index := index + 1;
      }
      assert words[..index] == words;
      AtSized(cb, ReachedBy(tree, words, blockSize));
    }

    method Fill(words: seq<Word>)
      requires words != [] && |words| < 0x8000_0000 && Increasing(words)
      requires HasTree() && BLOCK_DATA_OFFSET <= blockSize && memory.bytes == [] && blocks == [] && blockCount == 0
      requires leaders.Valid() && leaders.Stored() == map[]
      modifies memory, leaders, `blockCount, `blocks
      ensures Finished() && leaders.Valid() && Chained(blocks, words) && Leads(leaders.Stored(), blocks)
      ensures blocks != [] && Packed(tree, blocks, blockSize)
      ensures var last := blocks[|blocks| - 1]; Takes(tree, last.words, last.slot, blockCount, blockSize)
      ensures Intact() <==> KeepsUp(tree, words, blockSize)
      ensures WordsOf(blocks) == Cuts(tree, words, blockSize)
      ensures Flat(blocks, blockCount) <==> AllFitAlone(tree, words, blockSize)
    {
      hide AllLaid, AllHeld, KeepsUp, Place, Ordered, Represents, Leads, Chained, Increasing, Standing, WordCode,
        FrontCode, AllSpelled, Spells, Finished, AllFitAlone, FirstIndices, Flat, BitPtr.Position,
        BlockBuilder.InSync;
      leaders.Insert(words[0], 0);
      NothingBuilt();
      var cb := AppendBlock(0, null);
      assert blocks == [Block(0, 0, [])];
      cb := AddAll(words, cb);
      LastWord(blocks, words);
      BuilderHolds(cb);
      BuilderTakes(cb);
      Finish(cb);
    }

    /** Builds the map of increasing words: it holds them if and only if the bit pointer keeps
        up. The program also asserts that no word is empty, which nothing here depends on. */
    constructor (items: seq<Word>, blockSize: nat, mem: seq<Byte>, ghost tree: Tree)
      requires items != [] && |items| < 0x8000_0000 && Increasing(items) && AllSpelled(tree, items)
      requires BLOCK_DATA_OFFSET <= blockSize && tree.Node? && Ordered(tree) && Represents(mem, SYMBOL_BOUND, tree)
      ensures Built() && fresh(memory) && fresh(leaders)
      ensures Valid() <==> KeepsUp(tree, items, blockSize)
      ensures this.items == items && this.blockSize == blockSize && this.mem == mem && this.tree == tree
    {
      hide AllLaid, AllHeld, KeepsUp, Ordered, Represents, Leads, Chained, Increasing, WordCode, FrontCode,
        AllFitAlone, Spells, Less, Place, Flat, FirstIndices, IntAt, AsMap, Cuts, WordsOf;
      memory := new Memory([]);
      leaders := new RadixTree();
      this.blockSize, this.mem, this.tree, this.items := blockSize, mem, tree, items;
      blockCount, size, blocks, reverseLookup := 0, 0, [], [];
      new;
      Fill(items);
      size := |items|;
    }

    // ---- Looking up ----

    /** The words that can be read in a block, as many as it should hold. */
    ghost function Readings(b: nat): (words: seq<Word>)
      requires Finished() && b < |blocks|
      reads `blockCount, `blocks, memory
      ensures |words| <= |blocks[b].words|
    {
      assert Laid(tree, memory.bytes, blocks[b], blockSize, |memory.bytes|);
      WordsAt(tree, [], Bits(memory.bytes)[EndOf(Place(blocks[b].slot, blockSize), [])..], |blocks[b].words|)
    }

    /** A block that holds its words reads them. */
    lemma ReadsBack(b: nat)
      requires Finished() && Intact() && b < |blocks| && AllSpelled(tree, blocks[b].words)
      ensures Readings(b) == blocks[b].words
    {
      hide BlockCode, Bits, IntAt, Place, WordsAt, Ordered, Represents;
      assert Laid(tree, memory.bytes, blocks[b], blockSize, |memory.bytes|);
      assert Held(tree, memory.bytes, blocks[b], blockSize);
      HeldWordsAt(tree, memory.bytes, Place(blocks[b].slot, blockSize), blocks[b].first, blocks[b].words);
    }

    /** `c` of `n` words are read; those that can be read are `words`. */
    ghost predicate Reads(block: BlockPtr, words: seq<Word>, c: nat, n: nat)
      reads block, memory
    {
      && block.memory == memory && block.tree == tree && block.Valid()
      && c <= |words| <= n && (0 < c ==> block.lastValue == words[c - 1])
      && WordsAt(tree, block.lastValue, block.Rest(), n - c) == words[c..]
    }

    /** A pointer to the place of a block reads its header and its words. */
    lemma Opened(b: nat, block: BlockPtr)
      requires Finished() && b < |blocks|
      requires block.memory == memory && block.tree == tree && block.mem == mem
      requires block.blockBegin == Place(blocks[b].slot, blockSize) && block.lastValue == []
      requires block.current.Valid() && block.current.Position() == EndOf(block.blockBegin, [])
      ensures block.Valid() && Reads(block, Readings(b), 0, |blocks[b].words|)
      ensures block.FirstIndex() == blocks[b].first && block.Count() == |blocks[b].words|
    {
      hide Bits, BlockCode, IntAt, Place, WordsAt;
      assert Laid(tree, memory.bytes, blocks[b], blockSize, |memory.bytes|);
      assert Readings(b)[0..] == Readings(b);
    }

    /** Opens the block that starts at a slot. */
    method OpenBlock(ghost b: nat, slot: nat) returns (block: BlockPtr)
      requires Finished() && b < |blocks| && blocks[b].slot == slot
      ensures fresh(block) && block.Valid() && block.memory == memory
      ensures Reads(block, Readings(b), 0, |blocks[b].words|)
      ensures block.FirstIndex() == blocks[b].first && block.Count() == |blocks[b].words|
    {
      hide Laid, AllLaid, Place, Bits;
      block := new BlockPtr(memory, Place(slot, blockSize), mem, tree);
      Opened(b, block);
    }

    method NextIn(block: BlockPtr, ghost words: seq<Word>, ghost c: nat, ghost n: nat) returns (next: Word)
      requires Reads(block, words, c, n) && block.Valid() && c < |words|
      modifies block
      ensures next == words[c] == block.lastValue && Reads(block, words, c + 1, n)
      ensures block.Valid() && block.Count() == old(block.Count()) && block.FirstIndex() == old(block.FirstIndex())
    {
      hide WordAt, Bits, Represents, Ordered;
      assert words[c..][0] == words[c] && words[c..][1..] == words[c + 1..];
      next := block.NextWord();
    }

    /** The first word of the block is the last one at or below the key that leads a block. */
    ghost predicate Leading(b: nat, key: Word)
      reads `blocks
    {
      && b < |blocks| && blocks[b].words != [] && AtMost(blocks[b].words[0], key)
      && var end := blocks[b].first + |blocks[b].words|;
      end < |items| ==> Less(key, items[end])
    }

    /** A lookup does not run over the end of the memory. */
    ghost predicate Readable(key: Word)
      requires Finished()
      reads `blockCount, `blocks, memory
    {
      forall b: nat :: Leading(b, key) ==> Stops(Readings(b), |blocks[b].words|, key)
    }

    method Scan(key: Word, ghost words: seq<Word>, ghost n: nat, ghost start: nat, block: BlockPtr)
      returns (r: Option<nat>)
      requires Reads(block, words, 0, n) && block.Valid() && |words| <= n && 0 < n && Stops(words, n, key)
      requires block.FirstIndex() == start && block.Count() == n
      modifies block
      ensures r == Looked(words, start, key)
    {
      hide Reads, Less, BlockPtr.Valid, BlockPtr.Count, BlockPtr.FirstIndex;
      var idx := block.FirstIndex();
      var v := NextIn(block, words, 0, n);
      var c := 1;
      while c < block.Count() && Less(v, key)
        invariant 1 <= c <= |words| <= n && Reads(block, words, c, n) && idx == start + c - 1
        invariant block.Valid() && block.Count() == n && v == words[c - 1]
        invariant forall i :: 0 <= i < c - 1 ==> Less(words[i], key)
        decreases n - c
      {
        v := NextIn(block, words, c, n);
        idx := idx + 1;
        c := c + 1;
      }
      LessIrreflexive(key);
      r := if v == key then Some(idx) else None;
    }

    method LookIn(ghost b: nat, slot: nat, key: Word) returns (r: Option<nat>)
      requires Finished() && b < |blocks| && blocks[b].slot == slot && blocks[b].words != []
      requires Stops(Readings(b), |blocks[b].words|, key)
      ensures r == Looked(Readings(b), blocks[b].first, key)
    {
      hide Reads, BlockPtr.FirstIndex, BlockPtr.Count, BlockPtr.Valid, Looked, Stops, Finished, Readings;
      ghost var words := Readings(b);
      var block := OpenBlock(b, slot);
      r := Scan(key, words, |blocks[b].words|, blocks[b].first, block);
    }

    /** In any built map: the outcome of a scan of what is read in the block that should hold
        the word. If the blocks hold their words, that is the index of the word, or nothing if
        the map does not have it. */
    method IndexOf(key: Word) returns (r: Option<nat>)
      requires Built() && (Intact() || Readable(key))
      ensures Less(key, items[0]) ==> r == None
      ensures !Less(key, items[0]) ==>
        exists b: nat :: Leading(b, key) && r == Looked(Readings(b), blocks[b].first, key)
      ensures Intact() ==> match r
                           case Some(i) => i < |items| && items[i] == key
                           case None => key !in items
    {
      hide Intact, AsLaidOut, Reads, BlockPtr.FirstIndex, BlockPtr.Count, Increasing, Less, Chained, Leads, Finished,
        AllSpelled, FirstIndices, Looked, AtMost, Readings;
      ghost var leader;
      var slot;
      slot, leader := leaders.SeekLe(key);
      FirstIsLed(leaders.Stored(), blocks, items);
      if slot == None {
        BeforeAll(items, key);
        return None;
      }
      ghost var b := LeaderBlock(leaders.Stored(), blocks, items, key, leader);
      BlockSpelled(tree, blocks, items, b);
      if Intact() {
        ReadsBack(b);
        LookedDecides(items, blocks[b].first, blocks[b].words, key);
      }
      NotBefore(blocks, items, b, key);
      assert Leading(b, key);
      r := LookIn(b, slot.value, key);
    }

    /** A map of one block: its memory, and so what is read in it, follows from the words. */
    lemma OnlyBlock()
      requires Built() && Cuts(tree, items, blockSize) == [items] && AllFitAlone(tree, items, blockSize)
      ensures blocks == [Block(0, 0, items)]
      ensures Readings(0) == WordsAt(tree, [], Drawn(tree, items, Room(blockSize)).bits, |items|)
    {
      hide Increasing, Leads, AllSpelled, FirstIndices, Cuts, AllFitAlone, Drawn, Bits, WordsAt, Ordered, Represents,
        HoldsContent, BlockCode, IntAt;
      assert blocks[0].words == WordsOf(blocks)[0] == items;
      assert Laid(tree, memory.bytes, blocks[0], blockSize, |memory.bytes|);
      assert Place(0, blockSize) == 0 && Place(1, blockSize) == blockSize;
      var start := EndOf(0, []);
      assert Bits(memory.bytes)[start..8 * blockSize] == Bits(memory.bytes)[start..];
    }

    /** Neither of the two words is found again: the first reads as another word, the second,
        whose code went over the first one's, as the empty word. */
    lemma BothLost(key: Word)
      requires Built() && tree == BINARY && 73 <= blockSize && items == [ZeroWord(256), [1]] && key in items
      ensures Readable(key) && !Less(key, items[0])
      ensures forall b: nat :: Leading(b, key) ==> Looked(Readings(b), blocks[b].first, key) == None
    {
      hide Finished, Chained, Increasing, Leads, AllSpelled, FirstIndices, Cuts, AllFitAlone, Drawn, WordsAt, Less,
        ZeroWord, OverwrittenZeros, Readings;
      LongCodeLayout(blockSize);
      OnlyBlock();
      LongCodeReads(Room(blockSize));
      OverwrittenOrder(items[0], items[1]);
      StopUnique(Readings(0), key, if key == items[0] then 0 else 2);
    }

    /** `init_reverse_lookup` */
    method InitReverseLookup()
      requires Finished() && reverseLookup == []
      modifies `reverseLookup
      ensures reverseLookup == FirstIndices(memory.bytes, blockSize, blockCount)
    {
      for slot := 0 to blockCount
        invariant reverseLookup == FirstIndices(memory.bytes, blockSize, blockCount)[..slot]
      {
        PlaceMonotone(slot, blockCount, blockSize);
        var block := new BlockPtr(memory, Place(slot, blockSize), mem, tree);
        reverseLookup := reverseLookup + [block.FirstIndex()];
      }
    }

    ghost predicate FoundIn(b: nat, index: nat)
      requires Finished()
      reads `blockCount, `blocks, memory
    {
      && b < |blocks| && blocks[b].first <= index < blocks[b].first + |blocks[b].words|
      && SplitsAt(FirstIndices(memory.bytes, blockSize, blockCount), index, blocks[b].slot)
    }

    /** The block with the word at `index` is where the first indices of the slots split. Slots
        that continue an expanded block count with whatever bytes they hold. */
    ghost predicate Finds(index: nat)
      requires Finished()
      reads `blockCount, `blocks, memory
    {
      exists b: nat :: FoundIn(b, index)
    }

    /** The word at the index can be read where the lookup finds its block. */
    ghost predicate ReadableAt(index: nat)
      requires Finished()
      reads `blockCount, `blocks, memory
    {
      forall b: nat :: FoundIn(b, index) ==> index - blocks[b].first < |Readings(b)|
    }

    /** The word is what the block of the index reads there. */
    ghost predicate ReadThere(index: nat, key: Word)
      requires Finished()
      reads `blockCount, `blocks, memory
    {
      exists b: nat :: FoundIn(b, index) && index - blocks[b].first < |Readings(b)|
                       && Readings(b)[index - blocks[b].first] == key
    }

    lemma ReadsIndex(b: nat, index: nat)
      requires Built() && FoundIn(b, index) && Intact()
      ensures index < |items| && Readings(b) == blocks[b].words
      ensures blocks[b].words[index - blocks[b].first] == items[index]
    {
      hide Intact, AsLaidOut, Increasing, Chained, Leads, Finished, AllSpelled, FirstIndices, SplitsAt, Readings;
      BlockSpelled(tree, blocks, items, b);
      ReadsBack(b);
    }

    method Walk(ghost words: seq<Word>, ghost n: nat, ghost start: nat, index: nat, block: BlockPtr)
      returns (key: Word)
      requires Reads(block, words, 0, n) && block.Valid() && |words| <= n
      requires start <= index < start + |words| && block.FirstIndex() == start && block.Count() == n
      modifies block
      ensures key == words[index - start]
    {
      hide Reads, BlockPtr.Valid, BlockPtr.Count, BlockPtr.FirstIndex;
      var idx := block.FirstIndex();
      key := NextIn(block, words, 0, n);
      var c := 1;
      while c < block.Count() && idx < index
        invariant 1 <= c <= |words| <= n && Reads(block, words, c, n) && idx == start + c - 1 <= index
        invariant block.Valid() && block.Count() == n && key == words[c - 1]
        decreases n - c
      {
        key := NextIn(block, words, c, n);
        idx := idx + 1;
        c := c + 1;
      }
    }

    method WalkIn(ghost b: nat, slot: nat, index: nat) returns (key: Word)
      requires Finished() && b < |blocks| && blocks[b].slot == slot
      requires 0 <= index - blocks[b].first < |Readings(b)|
      ensures key == Readings(b)[index - blocks[b].first]
    {
      hide Reads, BlockPtr.FirstIndex, BlockPtr.Count, BlockPtr.Valid, Finished, Readings;
      ghost var words := Readings(b);
      var block := OpenBlock(b, slot);
      key := Walk(words, |blocks[b].words|, blocks[b].first, index, block);
    }

    /** What is read at an index whose block the lookup finds. If the blocks hold their words,
        it is the word with that index. */
    method KeyAt(index: nat) returns (key: Word)
      requires Built() && index < size && Finds(index) && (Intact() || ReadableAt(index))
      modifies `reverseLookup
      ensures Built() && ReadThere(index, key) && (Intact() ==> key == items[index])
    {
      hide Intact, AsLaidOut, Reads, BlockPtr.FirstIndex, BlockPtr.Count, BlockPtr.Valid, Increasing, Chained, Leads,
        Finished, AllSpelled, FirstIndices, SplitsAt, Readings;
      ghost var b: nat :| FoundIn(b, index);
      if reverseLookup == [] {
        InitReverseLookup();
      }
      var slot := LastAtMost(reverseLookup, index, blocks[b].slot);
      if Intact() {
        ReadsIndex(b, index);
      }
      assert FoundIn(b, index);
      key := WalkIn(b, slot, index);
    }

    lemma FlatLookup()
      requires Finished() && Flat(blocks, blockCount)
      ensures FirstIndices(memory.bytes, blockSize, blockCount) == Firsts(blocks)
    {
      hide Bits, BlockCode, IntAt, Place;
      forall b | 0 <= b < |blocks|
        ensures FirstIndices(memory.bytes, blockSize, blockCount)[b] == blocks[b].first
      {
        assert Laid(tree, memory.bytes, blocks[b], blockSize, |memory.bytes|);
      }
    }

    /** In a map without expanded blocks the lookup finds every index. */
    lemma FlatFinds(index: nat)
      requires Valid() && Flat(blocks, blockCount) && index < size
      ensures Finds(index)
    {
      hide Intact, AsLaidOut, Increasing, Chained, Leads, Finished, AllSpelled, FirstIndices;
      FlatLookup();
      FirstsRise(blocks, items, blockCount);
      var b := RisingSplits(Firsts(blocks), index);
      WithinBlock(blocks, items, b, index);
      assert FoundIn(b, index);
    }

    /** The words of a block, nothing behind the last one. */
    ghost function BlockWords(b: nat): seq<Word>
      reads `blocks
    {
      if b < |blocks| then blocks[b].words else []
    }

    /** Every slot is a block that holds its words. */
    ghost predicate Iterable()
      reads `blockCount, `blocks, memory
    {
      && Finished() && Intact() && Flat(blocks, blockCount)
      && Chained(blocks, items) && AllSpelled(tree, items)
    }

    lemma SlotIsBlock(b: nat)
      requires Iterable()
      ensures HasTree() && (b < blockCount <==> b < |blocks|)
      ensures b < |blocks| ==> blocks[b].slot == b && blocks[b].words != []
    {
    }

    /** The block of a slot, or what is behind the last one. */
    method OpenSlot(b: nat) returns (block: BlockPtr)
      requires Iterable()
      ensures fresh(block) && block.memory == memory
      ensures b < blockCount ==>
        block.Valid() && Reads(block, BlockWords(b), 0, |BlockWords(b)|) && block.Count() == |BlockWords(b)| != 0
    {
      hide Intact, Finished, Flat, Chained, AllSpelled, Reads, Readings, Place, BlockPtr.Count, BlockPtr.FirstIndex,
        BlockPtr.Valid;
      SlotIsBlock(b);
      block := new BlockPtr(memory, Place(b, blockSize), mem, tree);
      if b < blockCount {
        BlockSpelled(tree, blocks, items, b);
        ReadsBack(b);
        Opened(b, block);
      }
    }

    method Begin() returns (it: Iterator)
      requires Iterable() && 0 < blockCount
      ensures fresh(it) && fresh(it.block) && it.owner == this && it.blockNum == 0 && it.posInBlock == 0 && it.On(0)
    {
      hide Iterable, Reads, BlockPtr.Count, BlockPtr.Valid;
      var block := OpenSlot(0);
      it := new Iterator(this, block, 0, 0);
    }

    lemma LastIsFull()
      requires Built()
      ensures Finished() && blocks != []
      ensures size - blocks[|blocks| - 1].first == |blocks[|blocks| - 1].words| && blocks[|blocks| - 1].words != []
    {
      hide Finished, AsLaidOut, Chained, Increasing, Leads, AllSpelled, FirstIndices;
      LastWord(blocks, items);
    }

    /** The block number and the position of the end, if the last block is not expanded. */
    method End() returns (blockNum: int, posInBlock: int)
      requires Built() && blocks[|blocks| - 1].slot == blockCount - 1
      ensures blockNum == blockCount && posInBlock == 0
    {
      hide Built, Finished, Reads, Readings, BlockPtr.Count, BlockPtr.FirstIndex, BlockPtr.Valid;
      ghost var b := |blocks| - 1;
      LastIsFull();
      var last := OpenBlock(b, blockCount - 1);
      LastBlockFull(size - last.FirstIndex(), last.Count());
      posInBlock := (size - last.FirstIndex()) % last.Count();
      blockNum := if posInBlock == 0 then blockCount else blockCount - 1;
    }

    /** How many words stand before a block. */
    ghost function Offset(b: nat): nat
      reads this`blocks
    {
      if b < |blocks| then blocks[b].first else |items|
    }

    lemma OneMore(b: nat, p: nat)
      requires Iterable() && p < |BlockWords(b)|
      ensures Offset(b) + p < |items| && items[..Offset(b) + p] + [BlockWords(b)[p]] == items[..Offset(b) + p + 1]
      ensures p + 1 == |BlockWords(b)| ==> Offset(b) + p + 1 == Offset(b + 1)
    {
      hide Finished, Intact, Flat, AllSpelled;
    }

    lemma FlatIsIterable()
      requires Valid() && Flat(blocks, blockCount)
      ensures Built() && Iterable() && 0 < blockCount && blocks[|blocks| - 1].slot == blockCount - 1
      ensures Offset(0) == 0 && Offset(blockCount) == |items|
    {
      hide Finished, Intact, AsLaidOut, AllSpelled, Increasing, Leads, FirstIndices;
    }

    /** From `begin` to `end` the iterator yields exactly the words, in order. */
    method Iterate() returns (all: seq<Word>)
      requires Valid() && Flat(blocks, blockCount)
      ensures all == items
    {
      hide Valid, Built, Iterable, Flat, Offset, BlockWords, Iterator.On;
      FlatIsIterable();
      all := [];
      var it := Begin();
      var endBlock, endPos := End();
      while !(it.blockNum == endBlock && it.posInBlock == endPos)
        invariant fresh(it) && fresh(it.block) && it.owner == this && it.blockNum <= blockCount
        invariant it.blockNum < blockCount ==> it.On(it.posInBlock)
        invariant it.blockNum == blockCount ==> it.posInBlock == 0
        invariant Offset(it.blockNum) + it.posInBlock <= |items|
        invariant all == items[..Offset(it.blockNum) + it.posInBlock]
        decreases |items| - |all|
      {
        var v := it.Dereference();
        OneMore(it.blockNum, it.posInBlock);
        all := all + [v];
        it.Increment();
      }
    }
  }

  /** `build_prefix_map`: there is no empty map (the program throws). */
  method BuildPrefixMap(items: seq<Word>, blockSize: nat, mem: seq<Byte>, ghost tree: Tree)
    returns (r: Option<PrefixMap>)
    requires |items| < 0x8000_0000 && Increasing(items) && AllSpelled(tree, items)
    requires BLOCK_DATA_OFFSET <= blockSize && tree.Node? && Ordered(tree) && Represents(mem, SYMBOL_BOUND, tree)
    ensures r == None <==> items == []
    ensures r.Some? ==> fresh(r.value) && r.value.Built() && r.value.items == items
    ensures r.Some? ==> (r.value.Valid() <==> KeepsUp(tree, items, blockSize))
  {
    if items == [] {
      return None;
    }
    hide PrefixMap.Valid, PrefixMap.Built, Ordered, Represents, Increasing, AllSpelled, KeepsUp, AllFitAlone, Flat;
    var built := new PrefixMap(items, blockSize, mem, tree);
    r := Some(built);
  }

  /** A map of two words in which a lookup finds neither. */
  method LongCodeLost(blockSize: nat, mem: seq<Byte>) returns (first: Option<nat>, second: Option<nat>)
    requires 73 <= blockSize && Represents(mem, SYMBOL_BOUND, BINARY)
    ensures first == None && second == None
  {
    hide PrefixMap.Valid, PrefixMap.Built, PrefixMap.Finished, PrefixMap.Leading, PrefixMap.Readable,
      PrefixMap.Readings, Looked, Less, Increasing, AllSpelled, Represents, Ordered, KeepsUp, ZeroWord, AllFitAlone,
      Cuts;
    var u, v: Word := ZeroWord(256), [1];
    LongCodeLayout(blockSize);
    BinaryOrdered();
    var built := new PrefixMap([u, v], blockSize, mem, BINARY);
    built.BothLost(u);
    first := built.IndexOf(u);
    built.BothLost(v);
    second := built.IndexOf(v);
  }

  // ---- Iterating ----

  /** A single-pass iterator: every position is read once, before the step to the next. */
  class Iterator {
    const owner: PrefixMap
    var block: BlockPtr
    var blockNum: nat
    var posInBlock: nat

    /** `c` words of the current block are read. */
    ghost predicate On(c: nat)
      reads this, owner, owner.memory, block
    {
      var words := owner.BlockWords(blockNum);
      && owner.Iterable() && posInBlock < |words|
      && block.memory == owner.memory && block.Valid() && owner.Reads(block, words, c, |words|)
      && block.Count() == |words|
    }

    constructor (owner: PrefixMap, block: BlockPtr, blockNum: nat, posInBlock: nat)
      ensures this.owner == owner && this.block == block && this.blockNum == blockNum && this.posInBlock == posInBlock
    {
      this.owner, this.block, this.blockNum, this.posInBlock := owner, block, blockNum, posInBlock;
    }

    method Dereference() returns (v: Word)
      requires On(posInBlock)
      modifies block
      ensures posInBlock < |owner.BlockWords(blockNum)| && v == owner.BlockWords(blockNum)[posInBlock]
      ensures On(posInBlock + 1)
    {
      hide PrefixMap.Iterable, PrefixMap.Reads, PrefixMap.BlockWords, BlockPtr.Count, BlockPtr.FirstIndex,
        BlockPtr.Valid;
      ghost var words := owner.BlockWords(blockNum);
      v := owner.NextIn(block, words, posInBlock, |words|);
    }

    method Increment()
      requires On(posInBlock + 1)
      modifies this
      ensures if old(posInBlock) + 1 < |owner.BlockWords(old(blockNum))|
              then blockNum == old(blockNum) && posInBlock == old(posInBlock) + 1 && block == old(block)
                && On(posInBlock)
              else (blockNum == old(blockNum) + 1 && posInBlock == 0 && fresh(block)
                    && (blockNum < owner.blockCount ==> On(0)))
    {
      hide PrefixMap.Iterable, PrefixMap.Reads, PrefixMap.BlockWords, BlockPtr.Count, BlockPtr.FirstIndex,
        BlockPtr.Valid;
      posInBlock := posInBlock + 1;
      if posInBlock == block.Count() {
        blockNum := blockNum + 1;
        block := owner.OpenSlot(blockNum);
        posInBlock := 0;
      }
    }
  }
}
