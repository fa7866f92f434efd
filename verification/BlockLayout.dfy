/**
 Where the building loop of a prefix map puts its words, from the words alone: which word joins
 a block, starts one or takes several slots, and whether the bit pointer keeps up.
 */
module BlockLayout {
  import opened BitMemory
  import opened BitStream
  import opened AlphabeticTree
  import opened Words
  import opened FrontCoding
  import opened Blocks

  /** The word's front code against `prev` fits a block of one slot. */
  ghost predicate CanFollow(t: Tree, prev: Word, w: Word, blockSize: nat) {
    8 * BLOCK_DATA_OFFSET + |FrontCode(t, prev, w)| <= 8 * blockSize
  }

  /** A block of one slot can hold the word by itself: it need not be expanded. */
  ghost predicate FitsAlone(t: Tree, w: Word, blockSize: nat) {
    CanFollow(t, [], w, blockSize)
  }

  ghost predicate AllFitAlone(t: Tree, ws: seq<Word>, blockSize: nat) {
    forall i :: 0 <= i < |ws| ==> FitsAlone(t, ws[i], blockSize)
  }

  /** The header, both lengths and the whole code take no more than the block. */
  lemma FitsAloneMeans(t: Tree, w: Word, blockSize: nat)
    ensures FitsAlone(t, w, blockSize) <==> 64 + |w| + 2 + |WordCode(t, w)| <= 8 * blockSize
  {
    assert w[0..] == w && CommonPrefix([], w) == 0;
  }

  lemma AllFitSnoc(t: Tree, ws: seq<Word>, w: Word, blockSize: nat)
    ensures AllFitAlone(t, ws + [w], blockSize) <==> (AllFitAlone(t, ws, blockSize) && FitsAlone(t, w, blockSize))
    ensures AllFitAlone(t, [], blockSize)
  {
    hide FitsAlone;
    if AllFitAlone(t, ws + [w], blockSize) {
      forall i | 0 <= i < |ws| ensures FitsAlone(t, ws[i], blockSize) {
        assert FitsAlone(t, (ws + [w])[i], blockSize);
      }
      assert FitsAlone(t, (ws + [w])[|ws|], blockSize);
    }
  }

  // ---- Where the building loop gets to ----

  /** What decides the fate of the next word: a block of one slot that may take more words, with
      its last word, its position and whether the bit pointer has kept up, or a closed block. */
  datatype Reached = Open(last: Word, pos: nat, synced: bool) | Closed

  /** The word goes into the current block. */
  ghost predicate Joins(t: Tree, r: Reached, w: Word, blockSize: nat) {
    r.Open? && r.pos + |FrontCode(t, r.last, w)| <= 8 * blockSize
  }

  const START: Reached := Open([], 8 * BLOCK_DATA_OFFSET, true)

  ghost function Written(t: Tree, r: Reached, w: Word): Reached
    requires r.Open?
  {
    Open(w, r.pos + |FrontCode(t, r.last, w)|, r.synced && KeptUp(t, r.last, r.pos, w))
  }

  /** A word joins the current block, starts a new one, or takes several slots. */
  ghost function After(t: Tree, r: Reached, w: Word, blockSize: nat): Reached {
    if Joins(t, r, w, blockSize) then Written(t, r, w)
    else if FitsAlone(t, w, blockSize) then Written(t, START, w)
    else Closed
  }

  ghost function ReachedBy(t: Tree, ws: seq<Word>, blockSize: nat): Reached {
    if ws == [] then START else After(t, ReachedBy(t, ws[..|ws| - 1], blockSize), ws[|ws| - 1], blockSize)
  }

  /** A word joins the last of some blocks or starts another. */
  function NextCuts(cuts: seq<seq<Word>>, w: Word, joins: bool): (r: seq<seq<Word>>)
    requires cuts != []
    ensures r != []
  {
    if joins then cuts[|cuts| - 1 := cuts[|cuts| - 1] + [w]] else cuts + [[w]]
  }

  /** The words of every block; only the first may have none. */
  ghost function Cuts(t: Tree, ws: seq<Word>, blockSize: nat): (cuts: seq<seq<Word>>)
    ensures cuts != []
    decreases |ws|
  {
    if ws == [] then [[]]
    else
      var k := |ws| - 1;
      NextCuts(Cuts(t, ws[..k], blockSize), ws[k], Joins(t, ReachedBy(t, ws[..k], blockSize), ws[k], blockSize))
  }

  lemma CutsSnoc(t: Tree, ws: seq<Word>, w: Word, blockSize: nat)
    ensures Cuts(t, ws + [w], blockSize)
         == NextCuts(Cuts(t, ws, blockSize), w, Joins(t, ReachedBy(t, ws, blockSize), w, blockSize))
  {
    assert (ws + [w])[..|ws|] == ws;
  }

  /** If the word joins a block, the bit pointer has kept up with the words before it. */
  ghost predicate KeptFor(t: Tree, r: Reached, w: Word, blockSize: nat) {
    Joins(t, r, w, blockSize) ==> r.Open? && r.synced
  }

  /** The bit pointer keeps up wherever another word joins. What a word does that ends its block
      does not matter. */
  ghost predicate KeepsUp(t: Tree, ws: seq<Word>, blockSize: nat) {
    forall i :: 0 <= i < |ws| ==> KeptFor(t, ReachedBy(t, ws[..i], blockSize), ws[i], blockSize)
  }

  lemma NothingReached(t: Tree, blockSize: nat)
    ensures ReachedBy(t, [], blockSize) == START && KeepsUp(t, [], blockSize) && Cuts(t, [], blockSize) == [[]]
  {
  }

  // ---- What the layout comes to ----

  /** What the loop has reached is told by the words of the last block. */
  ghost predicate Reaches(t: Tree, cut: seq<Word>, r: Reached, blockSize: nat) {
    match r
    case Closed => 8 * blockSize < 64 + |BlockCode(t, [], cut)|
    case Open(last, pos, _) => last == LastOf([], cut) && pos == 64 + |BlockCode(t, [], cut)|
  }

  lemma ReachesWritten(t: Tree, cut: seq<Word>, r: Reached, w: Word, blockSize: nat)
    requires Reaches(t, cut, r, blockSize) && r.Open?
    ensures Reaches(t, cut + [w], Written(t, r, w), blockSize)
    ensures |BlockCode(t, [], cut + [w])| == |BlockCode(t, [], cut)| + |FrontCode(t, LastOf([], cut), w)|
  {
    hide BlockCode, FrontCode;
    BlockCodeSnoc(t, [], cut, w);
  }

  lemma ReachesAfter(t: Tree, cut: seq<Word>, r: Reached, w: Word, blockSize: nat)
    requires Reaches(t, cut, r, blockSize)
    ensures Joins(t, r, w, blockSize) ==>
      Reaches(t, cut + [w], After(t, r, w, blockSize), blockSize) && 64 + |BlockCode(t, [], cut + [w])| <= 8 * blockSize
    ensures !Joins(t, r, w, blockSize) ==>
      Reaches(t, [w], After(t, r, w, blockSize), blockSize) && 8 * blockSize < 64 + |BlockCode(t, [], cut + [w])|
  {
    hide BlockCode, FrontCode;
    BlockCodeSnoc(t, [], cut, w);
    if r.Open? {
      ReachesWritten(t, cut, r, w, blockSize);
    }
    BlockCodeSnoc(t, [], [], w);
    assert [] + [w] == [w] && BlockCode(t, [], []) == [] by {
      NothingDrawn(t, 0);
    }
  }

  /** A block of several words has room for them, and the next block's first word did not fit. */
  ghost predicate Greedy(t: Tree, cuts: seq<seq<Word>>, blockSize: nat) {
    && (forall b :: 0 <= b < |cuts| ==> (0 < b ==> cuts[b] != [])
                                        && (1 < |cuts[b]| ==> 64 + |BlockCode(t, [], cuts[b])| <= 8 * blockSize))
    && forall b :: 0 <= b < |cuts| - 1 ==> 8 * blockSize < 64 + |BlockCode(t, [], cuts[b] + [cuts[b + 1][0]])|
  }

  lemma GreedySnoc(t: Tree, cuts: seq<seq<Word>>, w: Word, joins: bool, blockSize: nat)
    requires cuts != [] && Greedy(t, cuts, blockSize)
    requires var all := cuts[|cuts| - 1] + [w];
      joins <==> 64 + |BlockCode(t, [], all)| <= 8 * blockSize
    ensures Greedy(t, NextCuts(cuts, w, joins), blockSize)
  {
    hide BlockCode;
    var next, m := NextCuts(cuts, w, joins), |cuts| - 1;
    forall b | 0 <= b < |next| - 1
      ensures 8 * blockSize < 64 + |BlockCode(t, [], next[b] + [next[b + 1][0]])|
    {
      if b < m {
        assert next[b] == cuts[b] && cuts[b + 1] != [] && next[b + 1][0] == cuts[b + 1][0];
      }
    }
  }

  lemma NothingCut(t: Tree, blockSize: nat)
    ensures Reaches(t, [], START, blockSize) && Greedy(t, [[]], blockSize)
  {
  }

  lemma {:induction false} CutsReach(t: Tree, ws: seq<Word>, blockSize: nat)
    ensures var cuts := Cuts(t, ws, blockSize);
      Reaches(t, cuts[|cuts| - 1], ReachedBy(t, ws, blockSize), blockSize) && Greedy(t, cuts, blockSize)
    decreases |ws|
  {
    hide BlockCode, FrontCode, Greedy, Reaches, Joins, After;
    if ws == [] {
      NothingCut(t, blockSize);
    } else {
      var k := |ws| - 1;
      var cuts, r := Cuts(t, ws[..k], blockSize), ReachedBy(t, ws[..k], blockSize);
      CutsReach(t, ws[..k], blockSize);
      ReachesAfter(t, cuts[|cuts| - 1], r, ws[k], blockSize);
      GreedySnoc(t, cuts, ws[k], Joins(t, r, ws[k], blockSize), blockSize);
    }
  }

  /** The layout is greedy: several words share a block if they have room, and a word starts
      another block only if it has no room behind the words of the block before it. */
  lemma CutsAreGreedy(t: Tree, ws: seq<Word>, blockSize: nat)
    ensures var cuts := Cuts(t, ws, blockSize);
      && (forall b :: 0 < b < |cuts| ==> cuts[b] != [])
      && (forall b :: 0 <= b < |cuts| && 1 < |cuts[b]| ==> 64 + |BlockCode(t, [], cuts[b])| <= 8 * blockSize)
      && forall b :: 0 <= b < |cuts| - 1 ==> 8 * blockSize < 64 + |BlockCode(t, [], cuts[b] + [cuts[b + 1][0]])|
  {
    hide BlockCode, Reaches, Cuts;
    CutsReach(t, ws, blockSize);
  }

  /** The code of the word at place `i` of a block is short enough for the bit pointer. */
  ghost predicate Exact(t: Tree, cut: seq<Word>, i: nat)
    requires i < |cut|
  {
    KeptUp(t, LastOf([], cut[..i]), 64 + |BlockCode(t, [], cut[..i])|, cut[i])
  }

  /** The copied part of the code ends within 255 bits of the byte it starts in. */
  lemma ExactMeans(t: Tree, cut: seq<Word>, i: nat)
    requires i < |cut|
    ensures var prev := if i == 0 then [] else cut[i - 1];
      Exact(t, cut, i) <==> (64 + |BlockCode(t, [], cut[..i])| + |cut[i]| + 2) % 8
                            + |WordCode(t, cut[i][CommonPrefix(prev, cut[i])..])| <= 255
  {
    hide BlockCode, WordCode, CommonPrefix;
  }

  ghost predicate AllExact(t: Tree, cut: seq<Word>, n: nat)
    requires n <= |cut|
  {
    forall i :: 0 <= i < n ==> Exact(t, cut, i)
  }

  /** In every block all words but the last have short codes. */
  ghost predicate CutsExact(t: Tree, cuts: seq<seq<Word>>) {
    forall b :: 0 <= b < |cuts| && cuts[b] != [] ==> AllExact(t, cuts[b], |cuts[b]| - 1)
  }

  lemma ExactSnoc(t: Tree, cut: seq<Word>, w: Word)
    ensures AllExact(t, cut + [w], |cut|) <==> AllExact(t, cut, |cut|)
    ensures AllExact(t, cut + [w], |cut| + 1)
       <==> (AllExact(t, cut, |cut|) && KeptUp(t, LastOf([], cut), 64 + |BlockCode(t, [], cut)|, w))
  {
    hide KeptUp, BlockCode, LastOf;
    var longer := cut + [w];
    assert longer[..|cut|] == cut && longer[|cut|] == w;
    assert Exact(t, longer, |cut|) <==> KeptUp(t, LastOf([], cut), 64 + |BlockCode(t, [], cut)|, w);
    forall i | 0 <= i < |cut| ensures Exact(t, longer, i) <==> Exact(t, cut, i) {
      assert longer[..i] == cut[..i] && longer[i] == cut[i];
    }
  }

  lemma NothingExact(t: Tree)
    ensures AllExact(t, [], 0) && CutsExact(t, [[]]) && BlockCode(t, [], []) == []
  {
  }

  lemma SyncedAfter(t: Tree, cut: seq<Word>, r: Reached, w: Word, blockSize: nat)
    requires Reaches(t, cut, r, blockSize) && (r.Open? ==> (r.synced <==> AllExact(t, cut, |cut|)))
    ensures var r' := After(t, r, w, blockSize);
      r'.Open? ==> (r'.synced <==> if Joins(t, r, w, blockSize) then AllExact(t, cut + [w], |cut| + 1)
                                   else AllExact(t, [w], 1))
  {
    hide BlockCode, FrontCode, KeptUp, AllExact;
    ExactSnoc(t, cut, w);
    ExactSnoc(t, [], w);
    NothingExact(t);
    assert [] + [w] == [w];
  }

  lemma {:induction false} ExactPrefix(t: Tree, cut: seq<Word>, n: nat)
    requires AllExact(t, cut, |cut|) && n <= |cut|
    ensures AllExact(t, cut, n)
  {
    hide Exact;
  }

  lemma AloneExact(t: Tree, w: Word)
    ensures AllExact(t, [w], 0)
  {
  }

  lemma CutsExactSnoc(t: Tree, cuts: seq<seq<Word>>, w: Word, joins: bool)
    requires cuts != []
    ensures var last := cuts[|cuts| - 1];
      CutsExact(t, NextCuts(cuts, w, joins)) <==> (CutsExact(t, cuts) && (joins ==> AllExact(t, last, |last|)))
  {
    hide Exact;
    var m := |cuts| - 1;
    var last, next := cuts[m], NextCuts(cuts, w, joins);
    ExactSnoc(t, last, w);
    forall b | 0 <= b < m ensures next[b] == cuts[b] {
    }
    assert joins ==> next[m] == last + [w];
    assert !joins ==> next[m] == last && next[m + 1] == [w];
    hide AllExact;
    AloneExact(t, w);
    if CutsExact(t, next) {
      forall b | 0 <= b < |cuts| && cuts[b] != [] ensures AllExact(t, cuts[b], |cuts[b]| - 1) {
        assert b < m ==> next[b] != [];
        if b == m && joins {
          assert next[m] != [];
          ExactPrefix(t, last, |last| - 1);
        }
      }
    }
  }

  lemma KeepsUpSnoc(t: Tree, ws: seq<Word>, w: Word, blockSize: nat)
    ensures KeepsUp(t, ws + [w], blockSize)
       <==> (KeepsUp(t, ws, blockSize) && KeptFor(t, ReachedBy(t, ws, blockSize), w, blockSize))
    ensures ReachedBy(t, ws + [w], blockSize) == After(t, ReachedBy(t, ws, blockSize), w, blockSize)
  {
    hide KeptFor, After;
    var longer := ws + [w];
    assert longer[..|ws|] == ws && longer[|ws|] == w;
    forall i | 0 <= i < |ws| ensures longer[..i] == ws[..i] && longer[i] == ws[i] {
    }
    if KeepsUp(t, longer, blockSize) {
      forall i | 0 <= i < |ws| ensures KeptFor(t, ReachedBy(t, ws[..i], blockSize), ws[i], blockSize) {
        assert KeptFor(t, ReachedBy(t, longer[..i], blockSize), longer[i], blockSize);
      }
    }
  }

  lemma {:induction false} KeepsUpIsExact(t: Tree, ws: seq<Word>, blockSize: nat)
    ensures var cuts, r := Cuts(t, ws, blockSize), ReachedBy(t, ws, blockSize);
      var last := cuts[|cuts| - 1];
      (r.Open? ==> (r.synced <==> AllExact(t, last, |last|))) && (KeepsUp(t, ws, blockSize) <==> CutsExact(t, cuts))
    decreases |ws|
  {
    hide BlockCode, FrontCode, Reaches, AllExact, CutsExact, KeepsUp;
    if ws == [] {
      NothingReached(t, blockSize);
      NothingExact(t);
    } else {
      var k := |ws| - 1;
      var cuts, r, w := Cuts(t, ws[..k], blockSize), ReachedBy(t, ws[..k], blockSize), ws[k];
      KeepsUpIsExact(t, ws[..k], blockSize);
      CutsReach(t, ws[..k], blockSize);
      SyncedAfter(t, cuts[|cuts| - 1], r, w, blockSize);
      CutsExactSnoc(t, cuts, w, Joins(t, r, w, blockSize));
      KeepsUpSnoc(t, ws[..k], w, blockSize);
      assert ws == ws[..k] + [w];
    }
  }

  /** The bit pointer keeps up if and only if, in every block, the codes of all words but the
      last are short enough for it. */
  lemma KeepsUpMeans(t: Tree, ws: seq<Word>, blockSize: nat)
    ensures var cuts := Cuts(t, ws, blockSize);
      KeepsUp(t, ws, blockSize) <==>
        forall b, i :: 0 <= b < |cuts| && 0 <= i < |cuts[b]| - 1 ==> Exact(t, cuts[b], i)
  {
    hide Cuts, KeepsUp, Exact;
    KeepsUpIsExact(t, ws, blockSize);
  }

  lemma CodeInParts(t: Tree, prev: Word, w: Word)
    ensures |WordCode(t, w)| + |w| + 2 <= |WordCode(t, prev)| + |FrontCode(t, prev, w)|
  {
    var p := CommonPrefix(prev, w);
    SplitCode(t, w, p);
    SplitCode(t, prev, p);
  }

  /** An open block has written at least as many bits as the whole code of its last word has. */
  lemma {:induction false} RoomUsed(t: Tree, ws: seq<Word>, blockSize: nat)
    ensures var r := ReachedBy(t, ws, blockSize); r.Open? ==> 8 * BLOCK_DATA_OFFSET + |WordCode(t, r.last)| <= r.pos
    decreases |ws|
  {
    if ws != [] {
      var r, w := ReachedBy(t, ws[..|ws| - 1], blockSize), ws[|ws| - 1];
      RoomUsed(t, ws[..|ws| - 1], blockSize);
      if r.Open? {
        CodeInParts(t, r.last, w);
      }
      CodeInParts(t, [], w);
    }
  }

  /** A word that joins others could as well have a block of its own. */
  lemma JoinerFitsAlone(t: Tree, ws: seq<Word>, w: Word, blockSize: nat)
    ensures Joins(t, ReachedBy(t, ws, blockSize), w, blockSize) ==> FitsAlone(t, w, blockSize)
  {
    var r := ReachedBy(t, ws, blockSize);
    RoomUsed(t, ws, blockSize);
    if r.Open? {
      CodeInParts(t, r.last, w);
    }
    assert w[0..] == w;
  }

  /** Where the word can follow `prev` in a block, its code is at most 248 bits. */
  ghost predicate Steady(t: Tree, prev: Word, w: Word, blockSize: nat) {
    CanFollow(t, prev, w, blockSize) ==> |WordCode(t, w[CommonPrefix(prev, w)..])| <= MAX_CODE
  }

  /** Every word but the last is steady in a block of its own and behind the word before it. */
  ghost predicate AllSteady(t: Tree, ws: seq<Word>, blockSize: nat) {
    forall i :: 0 <= i < |ws| - 1 ==>
      Steady(t, [], ws[i], blockSize) && (0 < i ==> Steady(t, ws[i - 1], ws[i], blockSize))
  }

  /** Words whose whole code is short are steady behind any word. */
  lemma ShortIsSteady(t: Tree, prev: Word, w: Word, blockSize: nat)
    requires |WordCode(t, w)| <= 248
    ensures Steady(t, prev, w, blockSize)
  {
    SplitCode(t, w, CommonPrefix(prev, w));
  }

  lemma {:induction false} SteadyReached(t: Tree, ws: seq<Word>, blockSize: nat, i: nat)
    requires AllSteady(t, ws, blockSize) && i < |ws|
    ensures var r := ReachedBy(t, ws[..i], blockSize);
      r.Open? ==> r.synced && 8 * BLOCK_DATA_OFFSET <= r.pos && r.last == LastOf([], ws[..i])
  {
    hide WordCode, FrontCode, CommonPrefix;
    if 0 < i {
      SteadyReached(t, ws, blockSize, i - 1);
      assert ws[..i] == ws[..i - 1] + [ws[i - 1]];
      assert Steady(t, [], ws[i - 1], blockSize);
    }
  }

  /** Short codes keep up. */
  lemma SteadyKeepsUp(t: Tree, ws: seq<Word>, blockSize: nat)
    requires AllSteady(t, ws, blockSize)
    ensures KeepsUp(t, ws, blockSize)
  {
    hide ReachedBy, AllSteady, FrontCode;
    forall i | 0 <= i < |ws| ensures KeptFor(t, ReachedBy(t, ws[..i], blockSize), ws[i], blockSize) {
      SteadyReached(t, ws, blockSize, i);
    }
  }

  // ---- Codes of one bit a symbol ----

  /** A tree of two symbols, with codes of one bit. */
  const BINARY: Tree := Node(0, Leaf(0), Leaf(1))

  function ZeroWord(n: nat): Word {
    seq(n, _ => 0)
  }

  lemma {:induction false} ZeroBits(n: nat)
    ensures WordCode(BINARY, ZeroWord(n)) == Zeros(n)
  {
    if 0 < n {
      assert ZeroWord(n)[1..] == ZeroWord(n - 1);
      ZeroBits(n - 1);
      assert Code(BINARY, 0) == [false];
    }
  }

  /** Words of zeros share all they can. */
  lemma ZeroFrontCode(a: nat, b: nat)
    requires a <= b
    ensures CommonPrefix(ZeroWord(a), ZeroWord(b)) == a && |ZeroWord(b)| == b
    ensures |WordCode(BINARY, ZeroWord(b)[a..])| == b - a
    ensures |FrontCode(BINARY, ZeroWord(a), ZeroWord(b))| == b + 2 + (b - a)
    ensures Spells(BINARY, ZeroWord(b)) && ZeroWord(0) == [] && (0 < b ==> ZeroWord(b)[0] == 0)
  {
    CommonPrefixUnique(ZeroWord(a), ZeroWord(b), a);
    assert ZeroWord(b)[a..] == ZeroWord(b - a);
    ZeroBits(b - a);
  }

  lemma {:induction false} ZerosIncrease(a: nat, b: nat)
    requires a < b
    ensures Less(ZeroWord(a), ZeroWord(b))
  {
    if 0 < a {
      assert ZeroWord(a)[1..] == ZeroWord(a - 1) && ZeroWord(b)[1..] == ZeroWord(b - 1);
      ZerosIncrease(a - 1, b - 1);
    }
  }

  lemma ReachedByTwo(t: Tree, u: Word, v: Word, blockSize: nat)
    ensures ReachedBy(t, [], blockSize) == START
    ensures ReachedBy(t, [u], blockSize) == After(t, START, u, blockSize)
    ensures ReachedBy(t, [u, v], blockSize) == After(t, After(t, START, u, blockSize), v, blockSize)
  {
    assert [u][..0] == [] && [u, v][..1] == [u];
  }

  lemma LongWordsReach()
    ensures var u, v, w := ZeroWord(200), ZeroWord(300), ZeroWord(301);
      && Spells(BINARY, u) && Spells(BINARY, v) && !Steady(BINARY, [], v, 1024)
      && KeptFor(BINARY, ReachedBy(BINARY, [], 1024), u, 1024)
      && KeptFor(BINARY, ReachedBy(BINARY, [u], 1024), v, 1024)
      && KeptFor(BINARY, ReachedBy(BINARY, [u, v], 1024), w, 1024)
  {
    hide ZeroWord, WordCode, FrontCode, CommonPrefix, Spells, ReachedBy;
    var u, v := ZeroWord(200), ZeroWord(300);
    ZeroFrontCode(0, 200);
    ZeroFrontCode(200, 300);
    ZeroFrontCode(0, 300);
    ReachedByTwo(BINARY, u, v, 1024);
    assert v[0..] == v && u[0..] == u;
  }

  /** Long words keep up if what they add to each other is short. */
  lemma LongWordsKeepUp()
    ensures var words := [ZeroWord(200), ZeroWord(300), ZeroWord(301)];
      && Increasing(words) && AllSpelled(BINARY, words)
      && KeepsUp(BINARY, words, 1024) && !AllSteady(BINARY, words, 1024)
  {
    hide ZeroWord, WordCode, FrontCode, CommonPrefix, Less, Spells, ReachedBy, After, KeptFor;
    var words := [ZeroWord(200), ZeroWord(300), ZeroWord(301)];
    ZerosIncrease(200, 300);
    ZerosIncrease(200, 301);
    ZerosIncrease(300, 301);
    ZeroFrontCode(300, 301);
    LongWordsReach();
    assert words[..0] == [] && words[..1] == [words[0]] && words[..2] == [words[0], words[1]];
    assert !Steady(BINARY, [], words[1], 1024);
  }

  lemma OneCode(v: Word)
    requires v == [1]
    ensures WordCode(BINARY, v) == [true] && Spells(BINARY, v)
  {
    assert v[1..] == [] && Code(BINARY, 1) == [true];
    assert 1 in Leaves(BINARY);
  }

  lemma OneFrontCode(u: Word, v: Word)
    requires u != [] && u[0] == 0 && v == [1]
    ensures FrontCode(BINARY, u, v) == [false, true, false, true] && CommonPrefix(u, v) == 0 && Less(u, v)
  {
    hide WordCode;
    CommonPrefixUnique(u, v, 0);
    assert Unary(0) == [false] && Unary(1) == [true, false] && v[0..] == v;
    OneCode(v);
  }

  /** After a code of 256 bits the bit pointer is back where the code begins: a word that joins
      the block spoils it. */
  lemma LongCodeFallsBehind(blockSize: nat)
    requires 73 <= blockSize
    ensures var words := [ZeroWord(256), [1]];
      Increasing(words) && AllSpelled(BINARY, words) && !KeepsUp(BINARY, words, blockSize)
  {
    hide ZeroWord, WordCode, FrontCode, CommonPrefix, Spells, Less, ReachedBy;
    var words: seq<Word> := [ZeroWord(256), [1]];
    ZeroFrontCode(0, 256);
    OneCode(words[1]);
    OneFrontCode(words[0], words[1]);
    assert words[0][0..] == words[0];
    ReachedByTwo(BINARY, words[0], words[1], blockSize);
    assert words[..1] == [words[0]];
    assert !KeptFor(BINARY, ReachedBy(BINARY, words[..1], blockSize), words[1], blockSize);
  }

  // ---- What is left of them ----

  /** What is read where 256 zeros were coded and then the next word over them. */
  function OverwrittenZeros(): Word {
    [0, 1, 0, 1] + ZeroWord(252)
  }

  lemma ConsCode(bit: Byte, w: Word)
    requires bit < 2
    ensures WordCode(BINARY, [bit] + w) == [bit == 1] + WordCode(BINARY, w)
  {
    assert ([bit] + w)[1..] == w;
    assert Code(BINARY, bit) == [bit == 1];
  }

  lemma OverwrittenParts()
    ensures OverwrittenZeros() == [0] + ([1] + ([0] + ([1] + ZeroWord(252))))
    ensures Spells(BINARY, OverwrittenZeros()) && |OverwrittenZeros()| == 256
  {
    assert Leaves(BINARY) == {0, 1};
  }

  lemma OverwrittenCode()
    ensures WordCode(BINARY, OverwrittenZeros()) == [false, true, false, true] + Zeros(252)
  {
    hide WordCode, OverwrittenZeros, ZeroWord, Zeros;
    OverwrittenParts();
    ZeroBits(252);
    var z := ZeroWord(252);
    ConsCode(1, z);
    ConsCode(0, [1] + z);
    ConsCode(1, [0] + ([1] + z));
    ConsCode(0, [1] + ([0] + ([1] + z)));
  }

  lemma FirstDrawn(u: Word, room: nat)
    requires u == ZeroWord(256) && 518 <= room
    ensures Drawn(BINARY, [u], room) == Picture(Unary(0) + Unary(256) + Zeros(room - 258), 258)
  {
    var d := Picture(Zeros(room), 0);
    assert Drawn(BINARY, [], room) == d;
    hide Drawn;
    DrawnSnoc(BINARY, [], u, room);
    assert [] + [u] == [u];
    assert u[0..] == u && |u| == 256;
    ZeroBits(256);
    CommonPrefixUnique([], u, 0);
    hide ZeroWord, CommonPrefix, WordCode, Unary;
    assert FrontCode(BINARY, [], u) == Unary(0) + Unary(256) + Zeros(256);
    assert Splice(Zeros(room), 0, Unary(0) + Unary(256) + Zeros(256)) == Unary(0) + Unary(256) + Zeros(room - 258);
    assert Moved(258, 256) == 258;
  }

  /** The code of 256 zeros and what the next word's code makes of it. */
  lemma LongCodeDrawn(u: Word, v: Word, room: nat)
    requires u == ZeroWord(256) && v == [1] && 518 <= room
    ensures Drawn(BINARY, [u, v], room).bits
         == Unary(0) + (Unary(256) + ([false, true, false, true] + Zeros(room - 262)))
  {
    hide Drawn, ZeroWord, CommonPrefix, WordCode;
    FirstDrawn(u, room);
    ZeroFrontCode(0, 256);
    OneFrontCode(u, v);
    DrawnSnoc(BINARY, [u], v, room);
    assert [u] + [v] == [u, v];
    hide Unary, FrontCode;
    var head := Unary(0) + Unary(256);
    assert Splice(head + Zeros(room - 258), 258, [false, true, false, true])
        == head + ([false, true, false, true] + Zeros(room - 262));
    Regroup(Unary(0), Unary(256), [false, true, false, true] + Zeros(room - 262));
  }

  lemma TwoWordsAt(t: Tree, prev: Word, bits: seq<bool>, u: Word, afterU: seq<bool>, v: Word, afterV: seq<bool>)
    requires WordAt(t, prev, bits) == Got(u, afterU) && WordAt(t, u, afterU) == Got(v, afterV)
    ensures WordsAt(t, prev, bits, 2) == [u, v]
  {
    hide WordAt;
    assert WordsAt(t, u, afterU, 1) == [v] + WordsAt(t, v, afterV, 0);
  }

  lemma ZerosConcat(a: nat, b: nat)
    ensures Zeros(a + b) == Zeros(a) + Zeros(b)
  {
  }

  lemma ZerosBlank(n: nat)
    requires 2 <= n
    ensures |Zeros(n)| == n && !Zeros(n)[0] && !Zeros(n)[1]
  {
  }

  lemma BinaryOrdered()
    ensures Ordered(BINARY) && BINARY.Node?
  {
  }

  /** A block of the two words reads as a word that was never added and the empty word. */
  lemma LongCodeReads(room: nat)
    requires 518 <= room
    ensures WordsAt(BINARY, [], Drawn(BINARY, [ZeroWord(256), [1]], room).bits, 2) == [OverwrittenZeros(), []]
  {
    hide Drawn, Unary, UnaryOf, WordOf, Ends, WordCode, Zeros;
    var w, rest := OverwrittenZeros(), [false, true, false, true] + Zeros(room - 262);
    var bits := Unary(0) + (Unary(256) + rest);
    LongCodeDrawn(ZeroWord(256), [1], room);
    OverwrittenParts();
    OverwrittenCode();
    hide OverwrittenZeros, ZeroWord;
    ZerosConcat(252, room - 514);
    assert rest == WordCode(BINARY, w) + Zeros(room - 514);
    BinaryOrdered();
    WordInverts(BINARY, w, Zeros(room - 514));
    UnaryInverts(0, Unary(256) + rest);
    UnaryInverts(256, rest);
    UnaryEnds(0, Unary(256) + rest);
    UnaryEnds(256, rest);
    assert Resized([], 0) + w == w;
    assert WordAt(BINARY, [], bits) == Got(w, Zeros(room - 514));
    ZerosBlank(room - 514);
    BlankReadsEmpty(BINARY, w, Zeros(room - 514));
    TwoWordsAt(BINARY, [], bits, w, Zeros(room - 514), [], Zeros(room - 514)[2..]);
  }

  lemma LongCodeJoins(u: Word, v: Word, blockSize: nat)
    requires u == ZeroWord(256) && v == [1] && 73 <= blockSize
    ensures Joins(BINARY, START, u, blockSize) && FitsAlone(BINARY, u, blockSize) && FitsAlone(BINARY, v, blockSize)
    ensures Joins(BINARY, ReachedBy(BINARY, [u], blockSize), v, blockSize)
  {
    hide ZeroWord, WordCode, FrontCode, CommonPrefix, Spells, Less, ReachedBy;
    ZeroFrontCode(0, 256);
    OneFrontCode(u, v);
    ReachedByTwo(BINARY, u, v, blockSize);
    JoinerFitsAlone(BINARY, [u], v, blockSize);
  }

  /** The layout of the two words: one block that both fit. */
  lemma LongCodeLayout(blockSize: nat)
    requires 73 <= blockSize
    ensures var words := [ZeroWord(256), [1]];
      && AllFitAlone(BINARY, words, blockSize) && Cuts(BINARY, words, blockSize) == [words]
      && Increasing(words) && AllSpelled(BINARY, words)
  {
    hide ZeroWord, WordCode, FrontCode, CommonPrefix, Spells, Less, ReachedBy, Cuts, FitsAlone;
    var words: seq<Word> := [ZeroWord(256), [1]];
    LongCodeFallsBehind(blockSize);
    LongCodeJoins(words[0], words[1], blockSize);
    NothingReached(BINARY, blockSize);
    CutsSnoc(BINARY, [], words[0], blockSize);
    CutsSnoc(BINARY, [words[0]], words[1], blockSize);
    assert [] + [words[0]] == [words[0]] && [words[0]] + [words[1]] == words;
  }

  lemma OverwrittenOrder(u: Word, v: Word)
    requires u == ZeroWord(256) && v == [1]
    ensures var w := OverwrittenZeros();
      !Less(w, u) && w != u && Less(w, v) && Less([], v) && Less(u, v) && !Less(u, u) && !Less(v, u)
  {
    var w := OverwrittenZeros();
    LessIrreflexive(u);
    assert w[1] == 1 && u[1] == 0 && w[1..][0] == 1 && u[1..][0] == 0;
  }
}
