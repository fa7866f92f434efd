/**
 Words as byte strings under the order of `std::string` and of the radix tree, and the
 choice of a block by its leader.
 */
module Words {
  import opened AlphabeticTree
  import opened FrontCoding
  import opened Options

  /** Lexicographic order of unsigned bytes, shorter first. */
  predicate Less(u: Word, v: Word) {
    v != [] && (u == [] || u[0] < v[0] || (u[0] == v[0] && Less(u[1..], v[1..])))
  }

  ghost predicate Increasing(ws: seq<Word>) {
    forall i, j :: 0 <= i < j < |ws| ==> Less(ws[i], ws[j])
  }

  lemma {:induction false} LessTotal(u: Word, v: Word)
    ensures u == v || Less(u, v) || Less(v, u)
  {
    if u != [] && v != [] && u[0] == v[0] {
      LessTotal(u[1..], v[1..]);
      assert u == [u[0]] + u[1..] && v == [v[0]] + v[1..];
    }
  }

  lemma {:induction false} LessTransitive(u: Word, v: Word, w: Word)
    requires Less(u, v) && Less(v, w)
    ensures Less(u, w)
  {
    if u != [] && u[0] == v[0] == w[0] {
      LessTransitive(u[1..], v[1..], w[1..]);
    }
  }

  lemma {:induction false} LessIrreflexive(u: Word)
    ensures !Less(u, u)
  {
    if u != [] {
      LessIrreflexive(u[1..]);
    }
  }

  lemma LessAsymmetric(u: Word, v: Word)
    requires Less(u, v)
    ensures !Less(v, u) && u != v
  {
    if Less(v, u) {
      LessTransitive(u, v, u);
    }
    LessIrreflexive(u);
  }

  lemma {:induction false} GreaterIsNoPrefix(u: Word, v: Word)
    requires Less(u, v)
    ensures !(v <= u)
  {
    if v <= u && u != [] {
      GreaterIsNoPrefix(u[1..], v[1..]);
    }
  }

  /** The first difference decides, and a word comes behind its proper prefixes. */
  lemma {:induction false} LessMeans(u: Word, v: Word)
    ensures var p := CommonPrefix(u, v); Less(u, v) <==> p < |v| && (p == |u| || u[p] < v[p])
  {
    if u != [] && v != [] && u[0] == v[0] {
      assert CommonPrefix(u, v) == 1 + CommonPrefix(u[1..], v[1..]);
      LessMeans(u[1..], v[1..]);
    }
  }

  /** Where two words first differ, both bytes have seven bits or neither has. */
  predicate SameSide(u: Word, v: Word) {
    var p := CommonPrefix(u, v);
    p < |u| && p < |v| ==> (u[p] < 128 <==> v[p] < 128)
  }

  /** The tree's signed order of words is the order of strings exactly when the first
      difference does not cross the sign. */
  lemma {:induction false} OrdersAgree(u: Word, v: Word)
    ensures (SymbolsLess(u, v) <==> Less(u, v)) <==> SameSide(u, v)
  {
    if u != [] && v != [] && u[0] == v[0] {
      var p := CommonPrefix(u[1..], v[1..]);
      assert CommonPrefix(u, v) == 1 + p;
      OrdersAgree(u[1..], v[1..]);
    }
  }

  /** Comparing coded words bit by bit is comparing the strings under the same condition. */
  lemma CodesOrderStrings(t: Tree, u: Word, v: Word)
    requires t.Node? && Ordered(t) && Spells(t, u) && Spells(t, v)
    ensures (BitsLess(WordCode(t, u), WordCode(t, v)) <==> Less(u, v)) <==> SameSide(u, v)
  {
    WordCodeKeepsOrder(t, u, v);
    OrdersAgree(u, v);
  }

  /** On seven-bit bytes the two orders are one. */
  lemma AsciiOrder(u: Word, v: Word)
    requires (forall i :: 0 <= i < |u| ==> u[i] < 128) && forall i :: 0 <= i < |v| ==> v[i] < 128
    ensures SymbolsLess(u, v) <==> Less(u, v)
  {
    OrdersAgree(u, v);
  }

  /** Beyond seven bits they disagree. */
  lemma SignedOrderDiffers()
    ensures Less([0x7F], [0x80]) && SymbolsLess([0x80], [0x7F])
  {
  }

  ghost predicate AllSpelled(t: Tree, ws: seq<Word>) {
    forall i :: 0 <= i < |ws| ==> Spells(t, ws[i])
  }

  /** Where a word stands in an increasing list, given its neighbours. */
  lemma Between(items: seq<Word>, key: Word, i: nat)
    requires Increasing(items) && i < |items|
    requires Less(items[i], key) && (i + 1 < |items| ==> Less(key, items[i + 1]))
    ensures key !in items
  {
    forall j | 0 <= j < |items| ensures items[j] != key {
      if j < i {
        LessTransitive(items[j], items[i], key);
      } else if i + 1 < j {
        LessTransitive(key, items[i + 1], items[j]);
      }
      if j <= i {
        LessAsymmetric(items[j], key);
      } else {
        LessAsymmetric(key, items[j]);
      }
    }
  }

  lemma BeforeAll(items: seq<Word>, key: Word)
    requires Increasing(items) && items != [] && Less(key, items[0])
    ensures key !in items
  {
    forall j | 0 <= j < |items| ensures items[j] != key {
      if 0 < j {
        LessTransitive(key, items[0], items[j]);
      }
      LessAsymmetric(key, items[j]);
    }
  }

  /** Is `k` at most `key`? */
  predicate AtMost(k: Word, key: Word) {
    k == key || Less(k, key)
  }

  /** Where a scan from `start` stopped after `c` words, the key is found or absent. */
  lemma ScanDecides(keys: seq<Word>, start: nat, end: nat, full: nat, c: nat, k: Word, key: Word)
    requires Increasing(keys) && start < end <= |keys| && end - start <= full && 1 <= c
    requires AtMost(keys[start], key) && (end < |keys| ==> Less(key, keys[end]))
    requires if c <= end - start then k == keys[start + c - 1] else k == [] && Less(keys[end - 1], key)
    requires 1 < c <= end - start ==> Less(keys[start + c - 2], key)
    requires Less(k, key) ==> full <= c
    ensures k == key ==> start + c - 1 < |keys| && keys[start + c - 1] == key
    ensures k != key ==> key !in keys
  {
    if keys[start] == key {
      LessIrreflexive(key);
    } else {
      LessAsymmetric(keys[start], key);
    }
    if end - start < c {
      Between(keys, key, end - 1);
    } else if k != key {
      LessTotal(k, key);
      if Less(k, key) {
        Between(keys, key, end - 1);
      } else if 1 < c {
        Between(keys, key, start + c - 2);
      }
    }
  }

  ghost predicate Rising(s: seq<int>) {
    forall i, j :: 0 <= i < j < |s| ==> s[i] < s[j]
  }

  /** The numbers up to `i` are at most `x`, the others above it. */
  ghost predicate SplitsAt(s: seq<int>, x: int, i: nat) {
    && i < |s|
    && (forall j :: 0 <= j <= i ==> s[j] <= x)
    && forall j :: i < j < |s| ==> x < s[j]
  }

  lemma {:induction false} RisingSplits(s: seq<int>, x: int) returns (i: nat)
    requires Rising(s) && s != [] && s[0] <= x
    ensures SplitsAt(s, x, i)
  {
    var last := |s| - 1;
    if s[last] <= x {
      i := last;
    } else {
      i := RisingSplits(s[..last], x);
    }
  }

  /** The last number at most `x` (`std::upper_bound`, one step back), in numbers that `x`
      splits. */
  method LastAtMost(s: seq<int>, x: int, ghost at: nat) returns (i: nat)
    requires SplitsAt(s, x, at)
    ensures i == at
  {
    i := 0;
    var hi := |s|;
    while i + 1 < hi
      invariant 0 <= i <= at < hi <= |s|
    {
      var mid := (i + hi) / 2;
      if s[mid] <= x {
        i := mid;
      } else {
        hi := mid;
      }
    }
  }

  // ---- Leaders ----

  /** A stored key and its value. */
  datatype Leader = Leader(key: Word, value: nat)

  ghost predicate GreatestAtMost(stored: map<Word, nat>, key: Word, leader: Word) {
    && leader in stored && AtMost(leader, key)
    && forall k :: k in stored && AtMost(k, key) ==> AtMost(k, leader)
  }

  ghost function AsMap(leaders: seq<Leader>): map<Word, nat> {
    if leaders == [] then map[]
    else AsMap(leaders[..|leaders| - 1])[leaders[|leaders| - 1].key := leaders[|leaders| - 1].value]
  }

  lemma AsMapSnoc(leaders: seq<Leader>, l: Leader)
    ensures AsMap(leaders + [l]) == AsMap(leaders)[l.key := l.value]
  {
    assert (leaders + [l])[..|leaders|] == leaders;
  }

  lemma {:induction false} AsMapUpdate(leaders: seq<Leader>, i: nat, value: nat)
    requires i < |leaders|
    requires forall i, j :: 0 <= i < j < |leaders| ==> leaders[i].key != leaders[j].key
    ensures AsMap(leaders[i := Leader(leaders[i].key, value)]) == AsMap(leaders)[leaders[i].key := value]
  {
    var last := |leaders| - 1;
    var updated := leaders[i := Leader(leaders[i].key, value)];
    if i == last {
      assert updated[..last] == leaders[..last];
    } else {
      AsMapUpdate(leaders[..last], i, value);
      assert updated[..last] == leaders[..last][i := Leader(leaders[i].key, value)];
    }
  }

  lemma {:induction false} AsMapIndex(leaders: seq<Leader>, k: Word) returns (i: nat)
    requires k in AsMap(leaders)
    ensures i < |leaders| && leaders[i].key == k
  {
    var last := |leaders| - 1;
    if leaders[last].key == k {
      i := last;
    } else {
      i := AsMapIndex(leaders[..last], k);
    }
  }

  lemma {:induction false} AsMapAt(leaders: seq<Leader>, i: nat)
    requires i < |leaders|
    requires forall i, j :: 0 <= i < j < |leaders| ==> leaders[i].key != leaders[j].key
    ensures leaders[i].key in AsMap(leaders) && AsMap(leaders)[leaders[i].key] == leaders[i].value
  {
    if i < |leaders| - 1 {
      AsMapAt(leaders[..|leaders| - 1], i);
    }
  }

  /** The radix tree, by its contract: inserting a key again replaces its value, and
      `SeekLe` finds the value of the greatest stored key that is at most the given one. */
  class RadixTree {
    var leaders: seq<Leader>

    ghost predicate Valid()
      reads this
    {
      forall i, j :: 0 <= i < j < |leaders| ==> leaders[i].key != leaders[j].key
    }

    ghost function Stored(): map<Word, nat>
      reads this
    {
      AsMap(leaders)
    }

    constructor ()
      ensures Valid() && Stored() == map[]
    {
      leaders := [];
    }

    method Insert(key: Word, value: nat)
      requires Valid()
      modifies this
      ensures Valid() && Stored() == old(Stored())[key := value]
    {
      for i := 0 to |leaders|
        invariant Valid() && leaders == old(leaders)
        invariant forall j :: 0 <= j < i ==> leaders[j].key != key
      {
        if leaders[i].key == key {
          AsMapUpdate(leaders, i, value);
          leaders := leaders[i := Leader(key, value)];
          return;
        }
      }
      AsMapSnoc(leaders, Leader(key, value));
      leaders := leaders + [Leader(key, value)];
    }

    method SeekLe(key: Word) returns (r: Option<nat>, ghost leader: Word)
      requires Valid()
      ensures r == None ==> forall k :: k in Stored() ==> Less(key, k)
      ensures r.Some? ==> GreatestAtMost(Stored(), key, leader) && r.value == Stored()[leader]
    {
      var best: Option<nat> := None;
      for i := 0 to |leaders|
        invariant best == None ==> forall j :: 0 <= j < i ==> !AtMost(leaders[j].key, key)
        invariant best.Some? ==> best.value < i && AtMost(leaders[best.value].key, key)
        invariant best.Some? ==>
          forall j :: 0 <= j < i && AtMost(leaders[j].key, key) ==> AtMost(leaders[j].key, leaders[best.value].key)
      {
        if AtMost(leaders[i].key, key) && (best == None || Less(leaders[best.value].key, leaders[i].key)) {
          if best.Some? {
            forall j | 0 <= j < i && AtMost(leaders[j].key, key)
              ensures AtMost(leaders[j].key, leaders[i].key)
            {
              if leaders[j].key != leaders[best.value].key {
                LessTransitive(leaders[j].key, leaders[best.value].key, leaders[i].key);
              }
            }
          }
          best := Some(i);
        } else if best.Some? {
          LessTotal(leaders[best.value].key, leaders[i].key);
        }
      }
      forall k | k in Stored() ensures exists i :: 0 <= i < |leaders| && leaders[i].key == k {
        var i := AsMapIndex(leaders, k);
      }
      if best == None {
        forall k | k in Stored() ensures Less(key, k) {
          LessTotal(k, key);
        }
        return None, [];
      }
      AsMapAt(leaders, best.value);
      return Some(leaders[best.value].value), leaders[best.value].key;
    }
  }
}
