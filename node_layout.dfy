/**
 * `NodeLayout`: the bytes of one B+Tree node, `[LeafFlag:1][KeyNumber:2][SiblingUid:8]` followed by 66
 * entries `[Son:8][Key:8]`. A node's bytes are read here through field getters and changed through
 * the setters `Node` uses, each a function of the old bytes; `AllSons` and `AllKeys` view the 66 entry
 * slots, of which the first `KeyNumber` are in use.
 */
module NodeLayout {
  import opened Bytes

  const IS_LEAF_OFFSET: int := 0
  const NO_KEYS_OFFSET: int := 1
  const SIBLING_OFFSET: int := 3
  const NODE_HEADER_SIZE: int := 11
  const BALANCE_NUMBER: int := 32
  /** Entry slots in a node: twice the balance number, plus two. */
  const SLOTS: int := 66
  /** `NODE_HEADER_SIZE + 16 * SLOTS`. */
  const NODE_SIZE: int := 1067
  /** `Long.MAX_VALUE`, the key of the last entry of an inner node. */
  const LONG_MAX: int := 0x7FFF_FFFF_FFFF_FFFF

  /** The byte offset of son `k`; its key follows 8 bytes later. */
  function SonOffset(k: int): int { 11 + 16 * k }

  predicate IsNode(n: seq<byte>) { |n| == 1067 }

  predicate IsLeafOf(n: seq<byte>)
    requires IsNode(n)
  {
    n[0] == 1
  }

  function KeyCountOf(n: seq<byte>): (c: int)
    requires IsNode(n)
    ensures IsShort(c)
  {
    ParseShort(n[1..3])
  }

  function SiblingOf(n: seq<byte>): (s: int)
    requires IsNode(n)
    ensures IsLong(s)
  {
    ParseLong(n[3..11])
  }

  function SonOf(n: seq<byte>, k: int): (u: int)
    requires IsNode(n) && 0 <= k < 66
    ensures IsLong(u)
  {
    ParseLong(n[11 + 16 * k..19 + 16 * k])
  }

  function KeyOf(n: seq<byte>, k: int): (x: int)
    requires IsNode(n) && 0 <= k < 66
    ensures IsLong(x)
  {
    ParseLong(n[19 + 16 * k..27 + 16 * k])
  }

  /** The sons of all 66 slots, in order. */
  function AllSons(n: seq<byte>): (s: seq<int>)
    requires IsNode(n)
    ensures |s| == 66 && forall k | 0 <= k < 66 :: s[k] == SonOf(n, k)
  {
    seq(66, k requires 0 <= k < 66 => SonOf(n, k))
  }

  /** The keys of all 66 slots, in order. */
  function AllKeys(n: seq<byte>): (s: seq<int>)
    requires IsNode(n)
    ensures |s| == 66 && forall k | 0 <= k < 66 :: s[k] == KeyOf(n, k)
  {
    seq(66, k requires 0 <= k < 66 => KeyOf(n, k))
  }

  /** A key count that the slots can hold. */
  predicate CountFits(n: seq<byte>)
    requires IsNode(n)
  {
    0 <= KeyCountOf(n) <= 66
  }

  /** The keys in use. */
  function Keys(n: seq<byte>): (s: seq<int>)
    requires IsNode(n) && CountFits(n)
    ensures |s| == KeyCountOf(n)
  {
    AllKeys(n)[..KeyCountOf(n)]
  }

  /** The sons in use. */
  function Sons(n: seq<byte>): (s: seq<int>)
    requires IsNode(n) && CountFits(n)
    ensures |s| == KeyCountOf(n)
  {
    AllSons(n)[..KeyCountOf(n)]
  }

  /** `setRawIsLeaf`: 1 for a leaf, 0 otherwise. */
  function WithLeaf(n: seq<byte>, isLeaf: bool): (r: seq<byte>)
    requires IsNode(n)
    ensures IsNode(r)
  {
    n[0 := if isLeaf then 1 else 0]
  }

  /** `setRawNoKeys`, through Java's narrowing of the count to `short`. */
  function WithKeyCount(n: seq<byte>, c: int): (r: seq<byte>)
    requires IsNode(n)
    ensures IsNode(r)
  {
    Overwrite(n, 1, Short2Byte(JavaShort(c)))
  }

  /** `setRawSibling`. */
  function WithSibling(n: seq<byte>, s: int): (r: seq<byte>)
    requires IsNode(n) && IsLong(s)
    ensures IsNode(r)
  {
    Overwrite(n, 3, Long2Byte(s))
  }

  /** `setRawKthSon`. */
  function WithSon(n: seq<byte>, k: int, u: int): (r: seq<byte>)
    requires IsNode(n) && 0 <= k < 66 && IsLong(u)
    ensures IsNode(r)
  {
    Overwrite(n, 11 + 16 * k, Long2Byte(u))
  }

  /** `setRawKthKey`. */
  function WithKey(n: seq<byte>, k: int, x: int): (r: seq<byte>)
    requires IsNode(n) && 0 <= k < 66 && IsLong(x)
    ensures IsNode(r)
  {
    Overwrite(n, 19 + 16 * k, Long2Byte(x))
  }

  /** `shiftRawKth`: every byte from slot `kth + 1` to the end takes the byte one slot earlier. */
  function Shifted(n: seq<byte>, kth: int): (r: seq<byte>)
    requires IsNode(n) && 0 <= kth
    ensures IsNode(r)
  {
    seq(1067, i requires 0 <= i < 1067 => if 11 + 16 * (kth + 1) <= i then n[i - 16] else n[i])
  }

  /** `copyRawFromKth`: the slots of `from` from `kth` on, copied to the slots of `to` from 0 on. */
  function CopiedFrom(from: seq<byte>, to: seq<byte>, kth: int): (r: seq<byte>)
    requires IsNode(from) && IsNode(to) && 0 <= kth <= 66
    ensures IsNode(r)
  {
    Overwrite(to, 11, from[11 + 16 * kth..])
  }

  /** The same header fields. */
  predicate SameHeader(n: seq<byte>, m: seq<byte>)
    requires IsNode(n) && IsNode(m)
  {
    IsLeafOf(n) == IsLeafOf(m) && KeyCountOf(n) == KeyCountOf(m) && SiblingOf(n) == SiblingOf(m)
  }

  /** `s` with `x` put in at `i`. */
  function Ins(s: seq<int>, i: int, x: int): (r: seq<int>)
    requires 0 <= i <= |s|
    ensures |r| == |s| + 1 && r[i] == x
    ensures forall j | 0 <= j < i :: r[j] == s[j]
    ensures forall j | i < j < |r| :: r[j] == s[j - 1]
  {
    s[..i] + [x] + s[i..]
  }

  /** Keys in non-decreasing order. */
  predicate Sorted(s: seq<int>)
  {
    forall i, j | 0 <= i < j < |s| :: s[i] <= s[j]
  }

  // Each setter changes its own field, which reads back as written, and no other field.

  lemma LeafSet(n: seq<byte>, isLeaf: bool)
    requires IsNode(n)
    ensures var r := WithLeaf(n, isLeaf);
      && IsLeafOf(r) == isLeaf && KeyCountOf(r) == KeyCountOf(n) && SiblingOf(r) == SiblingOf(n)
      && AllSons(r) == AllSons(n) && AllKeys(r) == AllKeys(n)
  {
    var r := WithLeaf(n, isLeaf);
    assert r[1..3] == n[1..3] && r[3..11] == n[3..11];
    forall k | 0 <= k < 66
      ensures SonOf(r, k) == SonOf(n, k) && KeyOf(r, k) == KeyOf(n, k)
    {
      assert r[11 + 16 * k..19 + 16 * k] == n[11 + 16 * k..19 + 16 * k];
      assert r[19 + 16 * k..27 + 16 * k] == n[19 + 16 * k..27 + 16 * k];
    }
  }

  lemma KeyCountSet(n: seq<byte>, c: int)
    requires IsNode(n)
    ensures var r := WithKeyCount(n, c);
      && KeyCountOf(r) == JavaShort(c) && IsLeafOf(r) == IsLeafOf(n) && SiblingOf(r) == SiblingOf(n)
      && AllSons(r) == AllSons(n) && AllKeys(r) == AllKeys(n)
  {
    var r := WithKeyCount(n, c);
    ShortRoundTrip(JavaShort(c));
    assert r[3..11] == n[3..11];
    forall k | 0 <= k < 66
      ensures SonOf(r, k) == SonOf(n, k) && KeyOf(r, k) == KeyOf(n, k)
    {
      assert r[11 + 16 * k..19 + 16 * k] == n[11 + 16 * k..19 + 16 * k];
      assert r[19 + 16 * k..27 + 16 * k] == n[19 + 16 * k..27 + 16 * k];
    }
  }

  lemma SiblingSet(n: seq<byte>, s: int)
    requires IsNode(n) && IsLong(s)
    ensures var r := WithSibling(n, s);
      && SiblingOf(r) == s && IsLeafOf(r) == IsLeafOf(n) && KeyCountOf(r) == KeyCountOf(n)
      && AllSons(r) == AllSons(n) && AllKeys(r) == AllKeys(n)
  {
    var r := WithSibling(n, s);
    LongRoundTrip(s);
    assert r[1..3] == n[1..3];
    forall k | 0 <= k < 66
      ensures SonOf(r, k) == SonOf(n, k) && KeyOf(r, k) == KeyOf(n, k)
    {
      assert r[11 + 16 * k..19 + 16 * k] == n[11 + 16 * k..19 + 16 * k];
      assert r[19 + 16 * k..27 + 16 * k] == n[19 + 16 * k..27 + 16 * k];
    }
  }

  lemma SonSet(n: seq<byte>, k: int, u: int)
    requires IsNode(n) && 0 <= k < 66 && IsLong(u)
    ensures var r := WithSon(n, k, u);
      && SameHeader(r, n) && AllSons(r) == AllSons(n)[k := u] && AllKeys(r) == AllKeys(n)
  {
    var r := WithSon(n, k, u);
    LongRoundTrip(u);
    assert r[11 + 16 * k..19 + 16 * k] == Long2Byte(u);
    assert r[1..3] == n[1..3] && r[3..11] == n[3..11];
    forall j | 0 <= j < 66
      ensures KeyOf(r, j) == KeyOf(n, j)
      ensures j != k ==> SonOf(r, j) == SonOf(n, j)
    {
      assert r[19 + 16 * j..27 + 16 * j] == n[19 + 16 * j..27 + 16 * j];
      if j != k {
        assert r[11 + 16 * j..19 + 16 * j] == n[11 + 16 * j..19 + 16 * j];
      }
    }
  }

  lemma KeySet(n: seq<byte>, k: int, x: int)
    requires IsNode(n) && 0 <= k < 66 && IsLong(x)
    ensures var r := WithKey(n, k, x);
      && SameHeader(r, n) && AllKeys(r) == AllKeys(n)[k := x] && AllSons(r) == AllSons(n)
  {
    var r := WithKey(n, k, x);
    LongRoundTrip(x);
    assert r[19 + 16 * k..27 + 16 * k] == Long2Byte(x);
    assert r[1..3] == n[1..3] && r[3..11] == n[3..11];
    forall j | 0 <= j < 66
      ensures SonOf(r, j) == SonOf(n, j)
      ensures j != k ==> KeyOf(r, j) == KeyOf(n, j)
    {
      assert r[11 + 16 * j..19 + 16 * j] == n[11 + 16 * j..19 + 16 * j];
      if j != k {
        assert r[19 + 16 * j..27 + 16 * j] == n[19 + 16 * j..27 + 16 * j];
      }
    }
  }

  /** Shifting at `kth` keeps the header and the slots up to `kth`, and moves every later slot one on. */
  lemma ShiftedSlots(n: seq<byte>, kth: int)
    requires IsNode(n) && 0 <= kth < 66
    ensures var r := Shifted(n, kth);
      && SameHeader(r, n)
      && AllSons(r) == AllSons(n)[..kth + 1] + AllSons(n)[kth..65]
      && AllKeys(r) == AllKeys(n)[..kth + 1] + AllKeys(n)[kth..65]
  {
    var r := Shifted(n, kth);
    assert r[1..3] == n[1..3] && r[3..11] == n[3..11];
    var sons := AllSons(n)[..kth + 1] + AllSons(n)[kth..65];
    var keys := AllKeys(n)[..kth + 1] + AllKeys(n)[kth..65];
    forall j | 0 <= j < 66
      ensures SonOf(r, j) == sons[j] && KeyOf(r, j) == keys[j]
    {
      ShiftedSlot(n, kth, j);
    }
  }

  lemma ShiftedSlot(n: seq<byte>, kth: int, j: int)
    requires IsNode(n) && 0 <= kth < 66 && 0 <= j < 66
    ensures var r := Shifted(n, kth); var m := if j <= kth then j else j - 1;
      SonOf(r, j) == SonOf(n, m) && KeyOf(r, j) == KeyOf(n, m)
  {
    var r := Shifted(n, kth);
    var m := if j <= kth then j else j - 1;
    assert r[11 + 16 * j..19 + 16 * j] == n[11 + 16 * m..19 + 16 * m];
    assert r[19 + 16 * j..27 + 16 * j] == n[19 + 16 * m..27 + 16 * m];
  }

  /** Copying from slot `kth` puts slots `kth..` of `from` into slots `0..` and keeps the header and the rest. */
  lemma CopiedSlots(from: seq<byte>, to: seq<byte>, kth: int)
    requires IsNode(from) && IsNode(to) && 0 <= kth <= 66
    ensures var r := CopiedFrom(from, to, kth);
      && SameHeader(r, to)
      && AllSons(r) == AllSons(from)[kth..] + AllSons(to)[66 - kth..]
      && AllKeys(r) == AllKeys(from)[kth..] + AllKeys(to)[66 - kth..]
  {
    var r := CopiedFrom(from, to, kth);
    assert r[1..3] == to[1..3] && r[3..11] == to[3..11];
    var sons := AllSons(from)[kth..] + AllSons(to)[66 - kth..];
    var keys := AllKeys(from)[kth..] + AllKeys(to)[66 - kth..];
    forall j | 0 <= j < 66
      ensures SonOf(r, j) == sons[j] && KeyOf(r, j) == keys[j]
    {
      CopiedSlot(from, to, kth, j);
    }
  }

  /** Slot `j` of a copy from slot `kth`: slot `j + kth` of the source, or the target's own slot. */
  lemma CopiedSlot(from: seq<byte>, to: seq<byte>, kth: int, j: int)
    requires IsNode(from) && IsNode(to) && 0 <= kth <= 66 && 0 <= j < 66
    ensures var r := CopiedFrom(from, to, kth);
      && SonOf(r, j) == (if j < 66 - kth then SonOf(from, j + kth) else SonOf(to, j))
      && KeyOf(r, j) == (if j < 66 - kth then KeyOf(from, j + kth) else KeyOf(to, j))
  {
    var r := CopiedFrom(from, to, kth);
    if j < 66 - kth {
      assert r[11 + 16 * j..19 + 16 * j] == from[11 + 16 * (j + kth)..19 + 16 * (j + kth)];
      assert r[19 + 16 * j..27 + 16 * j] == from[19 + 16 * (j + kth)..27 + 16 * (j + kth)];
    } else {
      assert r[11 + 16 * j..19 + 16 * j] == to[11 + 16 * j..19 + 16 * j];
      assert r[19 + 16 * j..27 + 16 * j] == to[19 + 16 * j..27 + 16 * j];
    }
  }


  /** The first index whose key is at least `x`, or `|s|`: where `insert` and the range scan start. */
  function FirstAtLeast(s: seq<int>, x: int): (i: nat)
    ensures i <= |s| && (forall j | 0 <= j < i :: s[j] < x) && (i < |s| ==> s[i] >= x)
  {
    if s == [] || s[0] >= x then 0 else 1 + FirstAtLeast(s[1..], x)
  }

  /** The first index whose key exceeds `x`, or `|s|`: where `searchNext` stops. */
  function FirstAbove(s: seq<int>, x: int): (i: nat)
    ensures i <= |s| && (forall j | 0 <= j < i :: s[j] <= x) && (i < |s| ==> s[i] > x)
  {
    if s == [] || x < s[0] then 0 else 1 + FirstAbove(s[1..], x)
  }

  /** In sorted keys, `FirstAbove` splits the keys at most `x` from those above it. */
  lemma FirstAboveSorted(s: seq<int>, x: int)
    requires Sorted(s)
    ensures var i := FirstAbove(s, x);
      (forall j | 0 <= j < i :: s[j] <= x) && (forall j | i <= j < |s| :: s[j] > x)
  {
    var i := FirstAbove(s, x);
    forall j | i <= j < |s|
      ensures s[j] > x
    {
      assert s[i] <= s[j];
    }
  }

  /** In sorted keys, `FirstAtLeast` splits the keys below `x` from those at least `x`. */
  lemma FirstAtLeastSorted(s: seq<int>, x: int)
    requires Sorted(s)
    ensures var i := FirstAtLeast(s, x);
      (forall j | 0 <= j < i :: s[j] < x) && (forall j | i <= j < |s| :: s[j] >= x)
  {
    var i := FirstAtLeast(s, x);
    forall j | i <= j < |s|
      ensures s[j] >= x
    {
      assert s[i] <= s[j];
    }
  }

  /** Where the range scan of `leafSearchRange` stops: the first index from the start whose key exceeds `hi`. */
  function RangeEnd(keys: seq<int>, lo: int, hi: int): (b: nat)
    ensures FirstAtLeast(keys, lo) <= b <= |keys|
  {
    var a := FirstAtLeast(keys, lo);
    a + FirstAbove(keys[a..], hi)
  }

  /** The sons whose keys lie in `[lo, hi]`, in key order. */
  function InRange(keys: seq<int>, sons: seq<int>, lo: int, hi: int): (r: seq<int>)
    requires |keys| == |sons|
    ensures |r| <= |keys|
  {
    if keys == [] then []
    else (if lo <= keys[0] <= hi then [sons[0]] else []) + InRange(keys[1..], sons[1..], lo, hi)
  }

  lemma {:induction false} InRangeNone(keys: seq<int>, sons: seq<int>, lo: int, hi: int)
    requires |keys| == |sons| && forall j | 0 <= j < |keys| :: keys[j] > hi
    ensures InRange(keys, sons, lo, hi) == []
  {
    if keys != [] {
      InRangeNone(keys[1..], sons[1..], lo, hi);
    }
  }

  /** A key below `lo` is skipped: the scan over the rest starts and stops one index earlier. */
  lemma RangeSkip(keys: seq<int>, lo: int, hi: int)
    requires keys != [] && keys[0] < lo
    ensures FirstAtLeast(keys, lo) == 1 + FirstAtLeast(keys[1..], lo)
    ensures RangeEnd(keys, lo, hi) == 1 + RangeEnd(keys[1..], lo, hi)
  {
    var a := FirstAtLeast(keys, lo);
    assert keys[a..] == keys[1..][a - 1..];
  }

  /** In sorted keys, a first key in `[lo, hi]` is taken and the scan goes on over the rest from its start. */
  lemma RangeTake(keys: seq<int>, lo: int, hi: int)
    requires keys != [] && lo <= keys[0] <= hi && Sorted(keys)
    ensures FirstAtLeast(keys, lo) == 0 && FirstAtLeast(keys[1..], lo) == 0
    ensures RangeEnd(keys, lo, hi) == 1 + RangeEnd(keys[1..], lo, hi)
  {
    assert keys[0..] == keys;
    var t := keys[1..];
    if t != [] {
      assert t[0] >= keys[0];
    }
    assert t[0..] == t;
  }

  /**
   * For sorted keys, the sons between where the scan starts and where it stops are exactly the sons
   * of the keys in `[lo, hi]`, in order.
   */
  lemma {:induction false} RangeIsInRange(keys: seq<int>, sons: seq<int>, lo: int, hi: int)
    requires |keys| == |sons| && Sorted(keys)
    ensures sons[FirstAtLeast(keys, lo)..RangeEnd(keys, lo, hi)] == InRange(keys, sons, lo, hi)
  {
    if keys == [] {
    } else if keys[0] > hi {
      RangeNone(keys, sons, lo, hi);
    } else {
      SortedTail(keys);
      RangeIsInRange(keys[1..], sons[1..], lo, hi);
      if keys[0] < lo {
        RangeSkipStep(keys, sons, lo, hi);
      } else {
        RangeTakeStep(keys, sons, lo, hi);
      }
    }
  }

  lemma SortedTail(s: seq<int>)
    requires s != [] && Sorted(s)
    ensures Sorted(s[1..])
  {
    var t := s[1..];
    forall i, j | 0 <= i < j < |t|
      ensures t[i] <= t[j]
    {
      assert t[i] == s[i + 1] && t[j] == s[j + 1];
    }
  }

  lemma RangeNone(keys: seq<int>, sons: seq<int>, lo: int, hi: int)
    requires |keys| == |sons| && Sorted(keys) && keys != [] && keys[0] > hi
    ensures sons[FirstAtLeast(keys, lo)..RangeEnd(keys, lo, hi)] == InRange(keys, sons, lo, hi)
  {
    FirstAboveSorted(keys, hi);
    assert keys[0..] == keys;
    InRangeNone(keys, sons, lo, hi);
  }

  lemma RangeSkipStep(keys: seq<int>, sons: seq<int>, lo: int, hi: int)
    requires |keys| == |sons| && keys != [] && keys[0] < lo
    requires var tk, ts := keys[1..], sons[1..];
      ts[FirstAtLeast(tk, lo)..RangeEnd(tk, lo, hi)] == InRange(tk, ts, lo, hi)
    ensures sons[FirstAtLeast(keys, lo)..RangeEnd(keys, lo, hi)] == InRange(keys, sons, lo, hi)
  {
    RangeSkip(keys, lo, hi);
    TailSlice(sons, FirstAtLeast(keys[1..], lo), RangeEnd(keys[1..], lo, hi));
  }

  lemma RangeTakeStep(keys: seq<int>, sons: seq<int>, lo: int, hi: int)
    requires |keys| == |sons| && Sorted(keys) && keys != [] && lo <= keys[0] <= hi
    requires var tk, ts := keys[1..], sons[1..];
      ts[FirstAtLeast(tk, lo)..RangeEnd(tk, lo, hi)] == InRange(tk, ts, lo, hi)
    ensures sons[FirstAtLeast(keys, lo)..RangeEnd(keys, lo, hi)] == InRange(keys, sons, lo, hi)
  {
    RangeTake(keys, lo, hi);
    var b := RangeEnd(keys[1..], lo, hi);
    TailSlice(sons, 0, b);
    assert sons[0..b + 1] == [sons[0]] + sons[1..b + 1];
  }

  lemma TailSlice(s: seq<int>, a: int, b: int)
    requires 0 <= a <= b < |s|
    ensures s[1..][a..b] == s[a + 1..b + 1]
  {
  }

  /**
   * The scan stops at the last key exactly when every key at least `lo` is at most `hi`; that is when
   * `leafSearchRange` returns the sibling as well.
   */
  lemma RangeReachesEnd(keys: seq<int>, lo: int, hi: int)
    requires Sorted(keys)
    ensures RangeEnd(keys, lo, hi) == |keys| <==> forall j | 0 <= j < |keys| && lo <= keys[j] :: keys[j] <= hi
  {
    var a := FirstAtLeast(keys, lo);
    var b := RangeEnd(keys, lo, hi);
    var f := FirstAbove(keys[a..], hi);
    if b == |keys| {
      forall j | 0 <= j < |keys| && lo <= keys[j]
        ensures keys[j] <= hi
      {
        assert keys[a..][j - a] == keys[j];
      }
    } else {
      assert keys[a..][f] == keys[b];
      FirstAtLeastSorted(keys, lo);
    }
  }

  /**
   * `insert` goes ahead unless the key belongs past the last key and the node has a sibling, in which
   * case the key is the sibling's business.
   */
  predicate Accepts(n: seq<byte>, key: int)
    requires IsNode(n) && CountFits(n)
  {
    !(FirstAtLeast(Keys(n), key) == KeyCountOf(n) && SiblingOf(n) != 0)
  }

  /**
   * `r` is `n` with `key` put in at slot `kth` and `uid` at slot `sonAt`, one key more, and the same leaf
   * flag and sibling.
   */
  ghost predicate InsertedAt(n: seq<byte>, r: seq<byte>, kth: int, sonAt: int, uid: int, key: int)
    requires IsNode(n) && IsNode(r) && 0 <= kth <= 66 && 0 <= sonAt <= 66
  {
    && IsLeafOf(r) == IsLeafOf(n) && SiblingOf(r) == SiblingOf(n) && KeyCountOf(r) == KeyCountOf(n) + 1
    && AllKeys(r) == Ins(AllKeys(n), kth, key)[..66] && AllSons(r) == Ins(AllSons(n), sonAt, uid)[..66]
  }

  /**
   * `r` is `n` after `insert(uid, key)` went ahead: the key put in at the first slot whose key is at
   * least it. A leaf's new son goes in beside its key; an inner node's new son goes in one slot later,
   * as the son for the keys from the new key on.
   */
  ghost predicate InsertedInto(n: seq<byte>, r: seq<byte>, uid: int, key: int)
    requires IsNode(n) && IsNode(r) && CountFits(n) && KeyCountOf(n) <= 64
  {
    var kth := FirstAtLeast(Keys(n), key);
    InsertedAt(n, r, kth, if IsLeafOf(n) then kth else kth + 1, uid, key)
  }

  lemma InsPrefix(s: seq<int>, i: int, x: int, c: int)
    requires 0 <= i <= c <= |s|
    ensures Ins(s, i, x)[..c + 1] == Ins(s[..c], i, x)
  {
  }

  lemma InsMultiset(s: seq<int>, i: int, x: int)
    requires 0 <= i <= |s|
    ensures multiset(Ins(s, i, x)) == multiset(s) + multiset{x}
  {
    assert s == s[..i] + s[i..];
  }

  /** Putting a key in where every key before it is smaller and every key after it at least as large keeps sorted keys sorted. */
  lemma InsSorted(s: seq<int>, i: int, x: int)
    requires 0 <= i <= |s| && Sorted(s)
    requires (forall j | 0 <= j < i :: s[j] < x) && (forall j | i <= j < |s| :: s[j] >= x)
    ensures Sorted(Ins(s, i, x))
  {
    var r := Ins(s, i, x);
    forall p, q | 0 <= p < q < |r|
      ensures r[p] <= r[q]
    {
      if q < i {
        assert r[p] == s[p] && r[q] == s[q];
      } else if q == i {
        assert r[p] == s[p];
      } else if p < i {
        assert r[p] == s[p] && r[q] == s[q - 1];
      } else if p == i {
        assert r[q] == s[q - 1];
      } else {
        assert r[p] == s[p - 1] && r[q] == s[q - 1];
      }
    }
  }

  /** The first `c + 1` of 66 slots after an insert at `i <= c` are the first `c` with the new value put in. */
  lemma InsSlots(all: seq<int>, after: seq<int>, i: int, x: int, c: int)
    requires |all| == 66 && 0 <= i <= c <= 65 && after == Ins(all, i, x)[..66]
    ensures after[..c + 1] == Ins(all[..c], i, x)
  {
    assert after[..c + 1] == Ins(all, i, x)[..c + 1];
    InsPrefix(all, i, x, c);
  }

  /**
   * After an insert, the keys in use are the old ones with the key added in place, so sorted keys stay
   * sorted; a leaf's sons gain the new uid at the same place.
   */
  lemma InsertedKeys(n: seq<byte>, r: seq<byte>, uid: int, key: int)
    requires IsNode(n) && IsNode(r) && CountFits(n) && KeyCountOf(n) <= 64 && InsertedInto(n, r, uid, key)
    ensures CountFits(r)
    ensures var kth := FirstAtLeast(Keys(n), key);
      && Keys(r) == Ins(Keys(n), kth, key) && multiset(Keys(r)) == multiset(Keys(n)) + multiset{key}
      && (IsLeafOf(n) ==> Sons(r) == Ins(Sons(n), kth, uid))
      && (Sorted(Keys(n)) ==> Sorted(Keys(r)))
  {
    var ks := Keys(n);
    var kth := FirstAtLeast(ks, key);
    var c := KeyCountOf(n);
    InsSlots(AllKeys(n), AllKeys(r), kth, key, c);
    assert Keys(r) == Ins(ks, kth, key);
    InsMultiset(ks, kth, key);
    if IsLeafOf(n) {
      InsSlots(AllSons(n), AllSons(r), kth, uid, c);
    }
    if Sorted(ks) {
      FirstAtLeastSorted(ks, key);
      InsSorted(ks, kth, key);
    }
  }

  /**
   * `split` of `n` into `left`, its own node afterwards, and `right`, the new node stored under
   * `son`: both keep the leaf flag; the right node takes slots 32 onward and the old sibling, and holds
   * 32 keys; the left one keeps its slots, holds 32 keys, and its sibling becomes the new node.
   */
  ghost predicate SplitInto(n: seq<byte>, left: seq<byte>, right: seq<byte>, son: int)
    requires IsNode(n) && IsNode(left) && IsNode(right)
  {
    && IsLeafOf(right) == IsLeafOf(n) && KeyCountOf(right) == 32 && SiblingOf(right) == SiblingOf(n)
    && AllKeys(right)[..34] == AllKeys(n)[32..] && AllSons(right)[..34] == AllSons(n)[32..]
    && IsLeafOf(left) == IsLeafOf(n) && KeyCountOf(left) == 32 && SiblingOf(left) == son
    && AllKeys(left) == AllKeys(n) && AllSons(left) == AllSons(n)
  }

  /**
   * A split of a full node, of 64 keys, leaves 32 keys on each side: the left half, then the right half,
   * are the old keys and sons in order. For sorted keys both halves are sorted and the new key, the
   * right node's first, lies between them.
   */
  lemma SplitHalves(n: seq<byte>, left: seq<byte>, right: seq<byte>, son: int)
    requires IsNode(n) && IsNode(left) && IsNode(right) && KeyCountOf(n) == 64
    requires SplitInto(n, left, right, son)
    ensures CountFits(left) && CountFits(right)
    ensures Keys(left) == Keys(n)[..32] && Keys(right) == Keys(n)[32..]
    ensures Keys(left) + Keys(right) == Keys(n) && Sons(left) + Sons(right) == Sons(n)
    ensures Sorted(Keys(n)) ==>
      && Sorted(Keys(left)) && Sorted(Keys(right)) && KeyOf(right, 0) == Keys(n)[32]
      && (forall j | 0 <= j < 32 :: Keys(left)[j] <= KeyOf(right, 0))
  {
    assert Keys(right) == AllKeys(right)[..34][..32];
    assert Sons(right) == AllSons(right)[..34][..32];
    assert Keys(n)[32..] == AllKeys(n)[32..][..32];
    assert Sons(n)[32..] == AllSons(n)[32..][..32];
    assert Keys(n) == Keys(n)[..32] + Keys(n)[32..];
    assert Sons(n) == Sons(n)[..32] + Sons(n)[32..];
  }

  /** Shifting at `i` and then writing slot `i` puts the value in at `i`. */
  lemma ShiftThenSet(s: seq<int>, i: int, x: int)
    requires |s| == 66 && 0 <= i < 66
    ensures (s[..i + 1] + s[i..65])[i := x] == Ins(s, i, x)[..66]
  {
    var l := (s[..i + 1] + s[i..65])[i := x];
    var r := Ins(s, i, x)[..66];
    forall j | 0 <= j < 66
      ensures l[j] == r[j]
    {
      if j > i {
        assert l[j] == s[j - 1];
      }
    }
  }

  /**
   * The key order of an inner node's insert: write the key at `i`, shift from `i + 1`, and write the
   * key that was at `i` into `i + 1`; the key is put in at `i`.
   */
  lemma InnerKeys(s: seq<int>, i: int, x: int)
    requires |s| == 66 && 0 <= i < 65
    ensures var t := s[i := x]; (t[..i + 2] + t[i + 1..65])[i + 1 := s[i]] == Ins(s, i, x)[..66]
  {
    var t := s[i := x];
    var l := (t[..i + 2] + t[i + 1..65])[i + 1 := s[i]];
    var r := Ins(s, i, x)[..66];
    forall j | 0 <= j < 66
      ensures l[j] == r[j]
    {
      if j > i + 1 {
        assert l[j] == t[j - 1] == s[j - 1];
      }
    }
  }

  /** A leaf's insert at `kth`: shift, write the key and the son, then the count. */
  lemma LeafInsertFields(n: seq<byte>, r: seq<byte>, kth: int, key: int, uid: int)
    requires IsNode(n) && 0 <= kth <= KeyCountOf(n) <= 64 && IsLong(key) && IsLong(uid)
    requires r == WithKeyCount(WithSon(WithKey(Shifted(n, kth), kth, key), kth, uid), KeyCountOf(n) + 1)
    ensures IsNode(r) && InsertedAt(n, r, kth, kth, uid, key)
  {
    var c := KeyCountOf(n);
    var n1 := Shifted(n, kth);
    ShiftedSlots(n, kth);
    var n2 := WithKey(n1, kth, key);
    KeySet(n1, kth, key);
    var n3 := WithSon(n2, kth, uid);
    SonSet(n2, kth, uid);
    KeyCountSet(n3, c + 1);
    ShiftThenSet(AllKeys(n), kth, key);
    ShiftThenSet(AllSons(n), kth, uid);
  }

  /**
   * An inner node's insert at `kth`: write the key at `kth`, shift from `kth + 1`, write the old key of
   * `kth` and the son at `kth + 1`, then the count.
   */
  lemma InnerInsertFields(n: seq<byte>, r: seq<byte>, kth: int, key: int, uid: int)
    requires IsNode(n) && 0 <= kth <= KeyCountOf(n) <= 64 && IsLong(key) && IsLong(uid)
    requires r == WithKeyCount(WithSon(WithKey(Shifted(WithKey(n, kth, key), kth + 1), kth + 1, KeyOf(n, kth)), kth + 1, uid), KeyCountOf(n) + 1)
    ensures IsNode(r) && InsertedAt(n, r, kth, kth + 1, uid, key)
  {
    var m := WithKey(Shifted(WithKey(n, kth, key), kth + 1), kth + 1, KeyOf(n, kth));
    InnerKeyFields(n, m, kth, key);
    SonThenCount(m, r, kth + 1, uid, KeyCountOf(n) + 1);
    InnerInsertCombined(n, m, r, kth, key, uid);
  }

  /** The field facts of an inner node's insert, put together without looking at the bytes. */
  lemma InnerInsertCombined(n: seq<byte>, m: seq<byte>, r: seq<byte>, kth: int, key: int, uid: int)
    requires IsNode(n) && IsNode(m) && IsNode(r) && 0 <= kth < 65
    requires SameHeader(m, n)
    requires AllKeys(m) == Ins(AllKeys(n), kth, key)[..66] && AllSons(m) == AllSons(n)[..kth + 2] + AllSons(n)[kth + 1..65]
    requires IsLeafOf(r) == IsLeafOf(m) && SiblingOf(r) == SiblingOf(m) && KeyCountOf(r) == KeyCountOf(n) + 1
    requires AllKeys(r) == AllKeys(m) && AllSons(r) == AllSons(m)[kth + 1 := uid]
    ensures InsertedAt(n, r, kth, kth + 1, uid, key)
  {
    ShiftedSonSet(AllSons(n), AllSons(m), AllSons(r), kth + 1, uid);
  }

  /** Slots shifted from `k`, then slot `k` set: the same as putting `x` in at `k`. */
  lemma ShiftedSonSet(s: seq<int>, a: seq<int>, b: seq<int>, k: int, x: int)
    requires |s| == 66 && 0 <= k < 66 && a == s[..k + 1] + s[k..65] && b == a[k := x]
    ensures b == Ins(s, k, x)[..66]
  {
    ShiftThenSet(s, k, x);
  }

  /** Writing son `k` and then the count changes only those two fields. */
  lemma SonThenCount(n: seq<byte>, r: seq<byte>, k: int, uid: int, c: int)
    requires IsNode(n) && 0 <= k < 66 && IsLong(uid) && IsShort(c)
    requires r == WithKeyCount(WithSon(n, k, uid), c)
    ensures IsNode(r)
    ensures IsLeafOf(r) == IsLeafOf(n) && SiblingOf(r) == SiblingOf(n) && KeyCountOf(r) == c
      && AllKeys(r) == AllKeys(n) && AllSons(r) == AllSons(n)[k := uid]
  {
    SonSet(n, k, uid);
    KeyCountSet(WithSon(n, k, uid), c);
  }

  /** The key moves of an inner node's insert, before the son and the count are written. */
  lemma InnerKeyFields(n: seq<byte>, r: seq<byte>, kth: int, key: int)
    requires IsNode(n) && 0 <= kth < 65 && IsLong(key)
    requires r == WithKey(Shifted(WithKey(n, kth, key), kth + 1), kth + 1, KeyOf(n, kth))
    ensures IsNode(r)
    ensures SameHeader(r, n)
      && AllKeys(r) == Ins(AllKeys(n), kth, key)[..66] && AllSons(r) == AllSons(n)[..kth + 2] + AllSons(n)[kth + 1..65]
  {
    var n1 := WithKey(n, kth, key);
    KeySet(n, kth, key);
    var n2 := Shifted(n1, kth + 1);
    ShiftedSlots(n1, kth + 1);
    KeySet(n2, kth + 1, KeyOf(n, kth));
    InnerKeys(AllKeys(n), kth, key);
  }

  /** The bytes `newRootRaw` writes into a zeroed node. */
  lemma RootFields(z: seq<byte>, left: int, right: int, key: int)
    requires IsNode(z) && IsLong(left) && IsLong(right) && IsLong(key)
    ensures var r := WithKey(WithSon(WithKey(WithSon(WithSibling(WithKeyCount(WithLeaf(z, false), 2), 0), 0, left), 0, key), 1, right), 1, LONG_MAX);
      && !IsLeafOf(r) && KeyCountOf(r) == 2 && SiblingOf(r) == 0
      && Keys(r) == [key, LONG_MAX] && Sons(r) == [left, right]
  {
    var n1 := WithLeaf(z, false);
    LeafSet(z, false);
    var n2 := WithKeyCount(n1, 2);
    KeyCountSet(n1, 2);
    var n3 := WithSibling(n2, 0);
    SiblingSet(n2, 0);
    var n4 := WithSon(n3, 0, left);
    SonSet(n3, 0, left);
    var n5 := WithKey(n4, 0, key);
    KeySet(n4, 0, key);
    var n6 := WithSon(n5, 1, right);
    SonSet(n5, 1, right);
    var r := WithKey(n6, 1, LONG_MAX);
    KeySet(n6, 1, LONG_MAX);
    assert Keys(r) == AllKeys(r)[..2];
  }

  /** The bytes `newNilRootRaw` writes into a zeroed node. */
  lemma NilRootFields(z: seq<byte>)
    requires IsNode(z)
    ensures var r := WithSibling(WithKeyCount(WithLeaf(z, true), 0), 0);
      IsLeafOf(r) && KeyCountOf(r) == 0 && SiblingOf(r) == 0 && Keys(r) == []
  {
    var n1 := WithLeaf(z, true);
    LeafSet(z, true);
    var n2 := WithKeyCount(n1, 0);
    KeyCountSet(n1, 0);
    SiblingSet(n2, 0);
  }

  /** A node window sliced again is a slice of its array. */
  /**
   * The node `split` builds from a fresh node `z`: `n`'s leaf flag, 32 keys, `n`'s sibling, then the slots
   * of `n` from 32 on.
   */
  lemma RightHalfFields(n: seq<byte>, z: seq<byte>, leaf: bool, sibling: int)
    requires IsNode(n) && IsNode(z) && leaf == IsLeafOf(n) && sibling == SiblingOf(n)
    ensures var r := CopiedFrom(n, WithSibling(WithKeyCount(WithLeaf(z, leaf), 32), sibling), 32);
      && IsLeafOf(r) == IsLeafOf(n) && KeyCountOf(r) == 32 && SiblingOf(r) == SiblingOf(n)
      && AllKeys(r)[..34] == AllKeys(n)[32..] && AllSons(r)[..34] == AllSons(n)[32..]
  {
    var n1 := WithLeaf(z, leaf);
    LeafSet(z, leaf);
    var n2 := WithKeyCount(n1, 32);
    KeyCountSet(n1, 32);
    var n3 := WithSibling(n2, sibling);
    SiblingSet(n2, sibling);
    CopiedSlots(n, n3, 32);
  }

  /** The node `split` leaves behind: `n` with 32 keys, linked to the new node `son`. */
  lemma LeftHalfFields(n: seq<byte>, son: int)
    requires IsNode(n) && IsLong(son)
    ensures var l := WithSibling(WithKeyCount(n, 32), son);
      && IsLeafOf(l) == IsLeafOf(n) && KeyCountOf(l) == 32 && SiblingOf(l) == son
      && AllKeys(l) == AllKeys(n) && AllSons(l) == AllSons(n)
  {
    KeyCountSet(n, 32);
    SiblingSet(WithKeyCount(n, 32), son);
  }

  lemma WindowSlice(p: seq<byte>, start: int, a: int, b: int)
    requires 0 <= start && start + 1067 <= |p| && 0 <= a <= b <= 1067
    ensures p[start..start + 1067][a..b] == p[start + a..start + b]
  {
    var w := p[start..start + 1067];
    forall i | 0 <= i < b - a
      ensures w[a..b][i] == p[start + a..start + b][i]
    {
      assert w[a..b][i] == w[a + i];
    }
  }
}
