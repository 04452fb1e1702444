/**
 * `Node`: a B+Tree node, stored as the data of one data item. The static field accessors work on a
 * window (`SubArray`) whose first `NODE_SIZE` bytes are the node; each is proved against the matching
 * function of `NodeLayout` and leaves every byte outside the node as it was. A `Node` reads and changes
 * its data item's bytes in place; `insertAndSplit` brackets its changes with the data item's `before`
 * and `after`, or `unBefore` when the insert does not go through.
 */
module Node {
  import opened Wrappers
  import opened Bytes
  import opened Common
  import opened NodeLayout
  import DataItem
  import DataItemImpl
  import DM = DataManager
  import TM = TransactionManager
  import Logger
  import Recover

  /** A window whose first `NODE_SIZE` bytes lie in its array. */
  ghost predicate Holds(sa: SubArray)
  {
    0 <= sa.start && sa.start + 1067 <= sa.raw.Length
  }

  /** The node a window holds. */
  ghost function NodeOf(sa: SubArray): (n: seq<byte>)
    requires Holds(sa)
    reads sa.raw
    ensures IsNode(n)
  {
    sa.raw[sa.start..sa.start + 1067]
  }

  /** `q` is `p` up to the node that starts at `start`. */
  ghost predicate SameOutside(p: seq<byte>, q: seq<byte>, start: int)
  {
    && |p| == |q| && 0 <= start && start + 1067 <= |p|
    && p[..start] == q[..start] && p[start + 1067..] == q[start + 1067..]
  }

  /** A write inside the node is the same write on the node's bytes, and changes nothing outside it. */
  lemma WindowWrite(p: seq<byte>, start: int, off: int, d: seq<byte>)
    requires 0 <= start && start + 1067 <= |p| && 0 <= off && off + |d| <= 1067
    ensures Overwrite(p, start + off, d)[start..start + 1067] == Overwrite(p[start..start + 1067], off, d)
    ensures SameOutside(p, Overwrite(p, start + off, d), start)
  {
    var q := Overwrite(p, start + off, d);
    var l := q[start..start + 1067];
    var r := Overwrite(p[start..start + 1067], off, d);
    forall i | 0 <= i < 1067
      ensures l[i] == r[i]
    {
      OverwriteAt(p, start + off, d, start + i);
      OverwriteAt(p[start..start + 1067], off, d, i);
    }
    assert p[..start] == q[..start];
    assert p[start + 1067..] == q[start + 1067..];
  }

  /** Bytes equal outside a node are equal outside any span that contains the node. */
  lemma OutsideSpan(p: seq<byte>, q: seq<byte>, start: int, lo: int, hi: int)
    requires SameOutside(p, q, start) && 0 <= lo <= start && start + 1067 <= hi <= |p|
    ensures forall i | 0 <= i < |p| && !(lo <= i < hi) :: q[i] == p[i]
  {
    forall i | 0 <= i < |p| && !(lo <= i < hi)
      ensures q[i] == p[i]
    {
      if i < start {
        assert p[..start][i] == q[..start][i];
      } else {
        assert p[start + 1067..][i - start - 1067] == q[start + 1067..][i - start - 1067];
      }
    }
  }

  /** Writes `d` at `off` within the node. */
  method WriteNode(sa: SubArray, off: int, d: seq<byte>)
    requires Holds(sa) && 0 <= off && off + |d| <= 1067
    modifies sa.raw
    ensures NodeOf(sa) == Overwrite(old(NodeOf(sa)), off, d) && SameOutside(old(sa.raw[..]), sa.raw[..], sa.start)
  {
    WriteBytes(sa.raw, sa.start + off, d);
    WindowWrite(old(sa.raw[..]), sa.start, off, d);
  }

  method SetRawIsLeaf(sa: SubArray, isLeaf: bool)
    requires Holds(sa)
    modifies sa.raw
    ensures NodeOf(sa) == WithLeaf(old(NodeOf(sa)), isLeaf) && SameOutside(old(sa.raw[..]), sa.raw[..], sa.start)
  {
    sa.raw[sa.start] := if isLeaf then 1 else 0;
    assert NodeOf(sa) == WithLeaf(old(NodeOf(sa)), isLeaf);
    assert old(sa.raw[..])[..sa.start] == sa.raw[..sa.start];
    assert old(sa.raw[..])[sa.start + 1067..] == sa.raw[sa.start + 1067..];
  }

  method GetRawIfLeaf(sa: SubArray) returns (b: bool)
    requires Holds(sa)
    ensures b == IsLeafOf(NodeOf(sa))
  {
    b := sa.raw[sa.start] == 1;
  }

  method SetRawNoKeys(sa: SubArray, noKeys: int)
    requires Holds(sa)
    modifies sa.raw
    ensures NodeOf(sa) == WithKeyCount(old(NodeOf(sa)), noKeys) && SameOutside(old(sa.raw[..]), sa.raw[..], sa.start)
  {
    WriteNode(sa, 1, Short2Byte(JavaShort(noKeys)));
  }

  method GetRawNoKeys(sa: SubArray) returns (c: int)
    requires Holds(sa)
    ensures c == KeyCountOf(NodeOf(sa))
  {
    c := ParseShort(sa.raw[sa.start + 1..sa.start + 3]);
    WindowSlice(sa.raw[..], sa.start, 1, 3);
  }

  method SetRawSibling(sa: SubArray, sibling: int)
    requires Holds(sa) && IsLong(sibling)
    modifies sa.raw
    ensures NodeOf(sa) == WithSibling(old(NodeOf(sa)), sibling) && SameOutside(old(sa.raw[..]), sa.raw[..], sa.start)
  {
    WriteNode(sa, 3, Long2Byte(sibling));
  }

  method GetRawSibling(sa: SubArray) returns (s: int)
    requires Holds(sa)
    ensures s == SiblingOf(NodeOf(sa))
  {
    s := ParseLong(sa.raw[sa.start + 3..sa.start + 11]);
    WindowSlice(sa.raw[..], sa.start, 3, 11);
  }

  method SetRawKthSon(sa: SubArray, uid: int, kth: int)
    requires Holds(sa) && IsLong(uid) && 0 <= kth < 66
    modifies sa.raw
    ensures NodeOf(sa) == WithSon(old(NodeOf(sa)), kth, uid) && SameOutside(old(sa.raw[..]), sa.raw[..], sa.start)
  {
    WriteNode(sa, 11 + 16 * kth, Long2Byte(uid));
  }

  method GetRawKthSon(sa: SubArray, kth: int) returns (u: int)
    requires Holds(sa) && 0 <= kth < 66
    ensures u == SonOf(NodeOf(sa), kth)
  {
    var offset := sa.start + 11 + 16 * kth;
    u := ParseLong(sa.raw[offset..offset + 8]);
    WindowSlice(sa.raw[..], sa.start, 11 + 16 * kth, 19 + 16 * kth);
  }

  method SetRawKthKey(sa: SubArray, key: int, kth: int)
    requires Holds(sa) && IsLong(key) && 0 <= kth < 66
    modifies sa.raw
    ensures NodeOf(sa) == WithKey(old(NodeOf(sa)), kth, key) && SameOutside(old(sa.raw[..]), sa.raw[..], sa.start)
  {
    WriteNode(sa, 19 + 16 * kth, Long2Byte(key));
  }

  method GetRawKthKey(sa: SubArray, kth: int) returns (k: int)
    requires Holds(sa) && 0 <= kth < 66
    ensures k == KeyOf(NodeOf(sa), kth)
  {
    var offset := sa.start + 19 + 16 * kth;
    k := ParseLong(sa.raw[offset..offset + 8]);
    WindowSlice(sa.raw[..], sa.start, 19 + 16 * kth, 27 + 16 * kth);
  }

  /** `copyRawFromKth`, from a window that ends where its node does. */
  method CopyRawFromKth(from: SubArray, to: SubArray, kth: int)
    requires Holds(from) && from.end == from.start + 1067 && Holds(to) && 0 <= kth <= 66
    modifies to.raw
    ensures NodeOf(to) == CopiedFrom(old(NodeOf(from)), old(NodeOf(to)), kth)
    ensures SameOutside(old(to.raw[..]), to.raw[..], to.start)
  {
    var offset := from.start + 11 + 16 * kth;
    ghost var src := NodeOf(from)[11 + 16 * kth..];
    assert from.raw[offset..offset + (from.end - offset)] == src;
    ArrayCopy(from.raw, offset, to.raw, to.start + 11, from.end - offset);
    WindowWrite(old(to.raw[..]), to.start, 11, src);
  }

  /** `shiftRawKth`: the backward copy, one byte at a time, of every byte from slot `kth + 1` on. */
  method ShiftRawKth(sa: SubArray, kth: int)
    requires Holds(sa) && 0 <= kth
    modifies sa.raw
    ensures NodeOf(sa) == Shifted(old(NodeOf(sa)), kth) && SameOutside(old(sa.raw[..]), sa.raw[..], sa.start)
  {
    var begin := sa.start + 11 + (kth + 1) * 16;
    var end := sa.start + 1067 - 1;
    var i := end;
    while i >= begin
      invariant begin - 1 <= i <= end || (i == end && begin > end)
      invariant forall j | 0 <= j < sa.raw.Length ::
        sa.raw[j] == if i < j <= end then old(sa.raw[j - 16]) else old(sa.raw[j])
      decreases i
    {
      sa.raw[i] := sa.raw[i - 16];
      i := i - 1;
    }
    ghost var o := old(NodeOf(sa));
    assert forall j | 0 <= j < 1067 :: NodeOf(sa)[j] == Shifted(o, kth)[j];
    assert old(sa.raw[..])[..sa.start] == sa.raw[..sa.start];
    assert old(sa.raw[..])[sa.start + 1067..] == sa.raw[sa.start + 1067..];
  }

  /** `newRootRaw`: an inner node of two keys, `key` over `left` and `Long.MAX_VALUE` over `right`. */
  method NewRootRaw(left: int, right: int, key: int) returns (raw: array<byte>)
    requires IsLong(left) && IsLong(right) && IsLong(key)
    ensures fresh(raw) && IsNode(raw[..])
    ensures var n := raw[..];
      && !IsLeafOf(n) && KeyCountOf(n) == 2 && SiblingOf(n) == 0
      && Keys(n) == [key, LONG_MAX] && Sons(n) == [left, right]
  {
    raw := new byte[1067](_ => 0);
    var sa := SubArray(raw, 0, 1067);
    assert NodeOf(sa) == raw[..];
    RootFields(raw[..], left, right, key);
    SetRawIsLeaf(sa, false);
    SetRawNoKeys(sa, 2);
    SetRawSibling(sa, 0);
    SetRawKthSon(sa, left, 0);
    SetRawKthKey(sa, key, 0);
    SetRawKthSon(sa, right, 1);
    SetRawKthKey(sa, LONG_MAX, 1);
    assert NodeOf(sa) == raw[..];
  }

  /** `newNilRootRaw`: an empty leaf without a sibling. */
  method NewNilRootRaw() returns (raw: array<byte>)
    ensures fresh(raw) && IsNode(raw[..])
    ensures var n := raw[..]; IsLeafOf(n) && KeyCountOf(n) == 0 && SiblingOf(n) == 0 && Keys(n) == []
  {
    raw := new byte[1067](_ => 0);
    var sa := SubArray(raw, 0, 1067);
    assert NodeOf(sa) == raw[..];
    NilRootFields(raw[..]);
    SetRawIsLeaf(sa, true);
    SetRawNoKeys(sa, 0);
    SetRawSibling(sa, 0);
    assert NodeOf(sa) == raw[..];
  }

  /**
   * A new root routes every key below `key` to `left`, and every other key below `Long.MAX_VALUE` to
   * `right`: `searchNext` stops at slot 0 or slot 1.
   */
  lemma RootRouting(n: seq<byte>, left: int, right: int, key: int, k: int)
    requires IsNode(n) && KeyCountOf(n) == 2 && Keys(n) == [key, LONG_MAX] && Sons(n) == [left, right]
    requires key < LONG_MAX && k < LONG_MAX
    ensures Sorted(Keys(n))
    ensures FirstAbove(Keys(n), k) == if k < key then 0 else 1
  {
    var ks := Keys(n);
    assert ks[0] == key && ks[1] == LONG_MAX;
    if k >= key {
      assert ks[1..] == [LONG_MAX];
    }
  }

  /** The node `split` moves out: `from`'s leaf flag, 32 keys, `from`'s sibling and its slots from 32 on. */
  method RightHalf(from: SubArray) returns (buf: array<byte>)
    requires Holds(from) && from.end == from.start + 1067
    ensures fresh(buf) && buf.Length == 1067
    ensures var n := NodeOf(from); var r := buf[..];
      && IsNode(r) && IsLeafOf(r) == IsLeafOf(n) && KeyCountOf(r) == 32 && SiblingOf(r) == SiblingOf(n)
      && AllKeys(r)[..34] == AllKeys(n)[32..] && AllSons(r)[..34] == AllSons(n)[32..]
  {
    ghost var n := NodeOf(from);
    buf := new byte[1067](_ => 0);
    var nodeRaw := SubArray(buf, 0, 1067);
    ghost var z := buf[..];
    assert NodeOf(nodeRaw) == z;
    var leaf := GetRawIfLeaf(from);
    SetRawIsLeaf(nodeRaw, leaf);
    SetRawNoKeys(nodeRaw, BALANCE_NUMBER);
    var sibling := GetRawSibling(from);
    SetRawSibling(nodeRaw, sibling);
    CopyRawFromKth(from, nodeRaw, BALANCE_NUMBER);
    assert NodeOf(nodeRaw) == buf[..];
    RightHalfFields(n, z, leaf, sibling);
  }

  /** `dm.insert` of a node as the super transaction: on success the returned uid reads back as its data item. */
  method InsertNode(dm: DM.DataManagerImpl, data: seq<byte>, cacheFull: bool) returns (r: Result<int>)
    requires dm.Valid() && |dm.pages| + 1 < TWO_31 && |data| == 1067
    modifies dm, dm.pIndex.lists, dm.logger
    ensures dm.Valid()
    ensures r.Ok? <==> !cacheFull
    ensures cacheFull ==> r == Err(CacheFull)
    ensures r.Ok? ==>
      && DM.ItemReadable(dm.pages, r.value)
      && DM.ItemAt(dm.pages, r.value) == Some(DataItem.WrapDataItemRaw(data))
  {
    ghost var pgno, offset, grown, added;
    r, pgno, offset, grown, added := dm.Insert(TM.SUPER_XID, data, cacheFull);
    if r.Ok? {
      DM.StoredReadsBack(grown, dm.pages, pgno, offset, data);
    }
  }

  datatype SearchNextRes = SearchNextRes(uid: int, siblingUid: int)
  datatype LeafSearchRangeRes = LeafSearchRangeRes(uids: seq<int>, siblingUid: int)
  datatype SplitRes = SplitRes(newSon: int, newKey: int)
  datatype InsertAndSplitRes = InsertAndSplitRes(siblingUid: int, newSon: int, newKey: int)

  class Node {
    const dataItem: DataItemImpl.DataItemImpl
    const raw: SubArray
    const uid: int

    /** The node is its data item's data, which is exactly `NODE_SIZE` bytes long. */
    ghost predicate Valid()
      reads this, dataItem
    {
      && dataItem.Valid() && raw == dataItem.Data()
      && dataItem.end == raw.start + 1067 && dataItem.end <= dataItem.raw.Length
    }

    /** The node's bytes. */
    ghost function Bytes(): (n: seq<byte>)
      requires Valid()
      reads this, dataItem, raw.raw
      ensures IsNode(n)
    {
      NodeOf(raw)
    }

    /** A node over a data item's data, with the data item's uid. */
    constructor (dataItem: DataItemImpl.DataItemImpl, uid: int)
      requires dataItem.Valid() && dataItem.end == dataItem.start + DataItem.OF_DATA + 1067
      requires dataItem.end <= dataItem.raw.Length
      ensures Valid() && this.dataItem == dataItem && this.uid == uid
    {
      this.dataItem := dataItem;
      raw := dataItem.Data();
      this.uid := uid;
    }

    method IsLeaf() returns (b: bool)
      requires Valid()
      ensures b == IsLeafOf(Bytes())
    {
      b := GetRawIfLeaf(raw);
    }

    /**
     * `searchNext`: the son of the first key above `key`, with no sibling; when no key is above it,
     * uid 0 and the node's sibling, where the search goes on.
     */
    method SearchNext(key: int) returns (r: SearchNextRes)
      requires Valid() && CountFits(Bytes())
      ensures var n := Bytes(); var i := FirstAbove(Keys(n), key);
        r == if i < KeyCountOf(n) then SearchNextRes(SonOf(n, i), 0) else SearchNextRes(0, SiblingOf(n))
    {
      ghost var n := Bytes();
      var noKeys := GetRawNoKeys(raw);
      var i := 0;
      while i < noKeys
        invariant 0 <= i <= noKeys && forall j | 0 <= j < i :: KeyOf(n, j) <= key
      {
        var ik := GetRawKthKey(raw, i);
        if key < ik {
          var son := GetRawKthSon(raw, i);
          FirstAboveAt(Keys(n), key, i);
          return SearchNextRes(son, 0);
        }
        i := i + 1;
      }
      FirstAboveAt(Keys(n), key, i);
      var sibling := GetRawSibling(raw);
      return SearchNextRes(0, sibling);
    }

    /** The scan `insert` and `leafSearchRange` share: the first slot whose key is at least `x`. */
    method FindSlot(x: int) returns (kth: int)
      requires Valid() && CountFits(Bytes())
      ensures kth == FirstAtLeast(Keys(Bytes()), x)
    {
      ghost var n := Bytes();
      var noKeys := GetRawNoKeys(raw);
      kth := 0;
      while kth < noKeys
        invariant 0 <= kth <= noKeys && forall j | 0 <= j < kth :: KeyOf(n, j) < x
      {
        var ik := GetRawKthKey(raw, kth);
        if ik < x {
          kth := kth + 1;
        } else {
          break;
        }
      }
      FirstAtLeastAt(Keys(n), x, kth);
    }

    /**
     * `leafSearchRange`: the sons from the first key at least `lo` up to the first key after it above
     * `hi`, and the sibling exactly when that scan reached the last key.
     */
    method LeafSearchRange(lo: int, hi: int) returns (r: LeafSearchRangeRes)
      requires Valid() && CountFits(Bytes())
      ensures var n := Bytes(); var a := FirstAtLeast(Keys(n), lo); var b := RangeEnd(Keys(n), lo, hi);
        && r.uids == Sons(n)[a..b]
        && r.siblingUid == if b == KeyCountOf(n) then SiblingOf(n) else 0
    {
      ghost var n := Bytes();
      var noKeys := GetRawNoKeys(raw);
      var kth := FindSlot(lo);
      var uids;
      uids, kth := CollectFrom(kth, hi);
      RangeEndAt(Keys(n), lo, hi, kth);
      var siblingUid := 0;
      if kth == noKeys {
        siblingUid := GetRawSibling(raw);
      }
      return LeafSearchRangeRes(uids, siblingUid);
    }

    /** The second scan of `leafSearchRange`: the sons from slot `a` on, while the key is at most `hi`. */
    method CollectFrom(a: int, hi: int) returns (uids: seq<int>, b: int)
      requires Valid() && CountFits(Bytes()) && 0 <= a <= KeyCountOf(Bytes())
      ensures var n := Bytes(); a <= b <= KeyCountOf(n) && uids == Sons(n)[a..b]
      ensures var n := Bytes(); (forall j | a <= j < b :: KeyOf(n, j) <= hi) && (b < KeyCountOf(n) ==> KeyOf(n, b) > hi)
    {
      ghost var n := Bytes();
      var noKeys := GetRawNoKeys(raw);
      b := a;
      uids := [];
      while b < noKeys
        invariant a <= b <= noKeys && |uids| == b - a
        invariant forall j | a <= j < b :: uids[j - a] == SonOf(n, j)
        invariant forall j | a <= j < b :: KeyOf(n, j) <= hi
      {
        var ik := GetRawKthKey(raw, b);
        if ik <= hi {
          var son := GetRawKthSon(raw, b);
          uids := uids + [son];
          b := b + 1;
        } else {
          break;
        }
      }
      CollectedSons(n, a, b, uids);
    }

    /**
     * `insert`: false, changing nothing, when the key belongs past the last key and there is a sibling;
     * otherwise the key and the uid go in at the first key at least as large, and the count grows by one.
     */
    method Insert(uid: int, key: int) returns (b: bool)
      requires Valid() && CountFits(Bytes()) && KeyCountOf(Bytes()) <= 64 && IsLong(uid) && IsLong(key)
      modifies raw.raw
      ensures Valid() && b == Accepts(old(Bytes()), key)
      ensures b ==> InsertedInto(old(Bytes()), Bytes(), uid, key)
      ensures !b ==> raw.raw[..] == old(raw.raw[..])
      ensures SameOutside(old(raw.raw[..]), raw.raw[..], raw.start)
    {
      var noKeys := GetRawNoKeys(raw);
      var kth := FindSlot(key);
      var sibling := GetRawSibling(raw);
      if kth == noKeys && sibling != 0 {
        return false;
      }
      var leaf := GetRawIfLeaf(raw);
      if leaf {
        InsertLeaf(uid, key, kth, noKeys);
      } else {
        InsertInner(uid, key, kth, noKeys);
      }
      return true;
    }

    /** The leaf case of `insert`: shift from `kth`, then write the key, the son and the count. */
    method InsertLeaf(uid: int, key: int, kth: int, noKeys: int)
      requires Valid() && noKeys == KeyCountOf(Bytes()) && 0 <= kth <= noKeys <= 64 && IsLong(uid) && IsLong(key)
      modifies raw.raw
      ensures Valid() && SameOutside(old(raw.raw[..]), raw.raw[..], raw.start)
      ensures InsertedAt(old(Bytes()), Bytes(), kth, kth, uid, key)
    {
      ghost var n := Bytes();
      ghost var p := raw.raw[..];
      ShiftRawKth(raw, kth);
      ghost var p1 := raw.raw[..];
      SetRawKthKey(raw, key, kth);
      ghost var p2 := raw.raw[..];
      SetRawKthSon(raw, uid, kth);
      ghost var p3 := raw.raw[..];
      SetRawNoKeys(raw, noKeys + 1);
      LeafInsertFields(n, Bytes(), kth, key, uid);
      SameOutsideTrans(p, p1, p2, p3, raw.raw[..], raw.start);
    }

    /**
     * The inner-node case of `insert`: the key takes slot `kth`, the slots from `kth + 1` move on, the old
     * key of slot `kth` goes to `kth + 1` with the new son, and the count grows.
     */
    method InsertInner(uid: int, key: int, kth: int, noKeys: int)
      requires Valid() && noKeys == KeyCountOf(Bytes()) && 0 <= kth <= noKeys <= 64 && IsLong(uid) && IsLong(key)
      modifies raw.raw
      ensures Valid() && SameOutside(old(raw.raw[..]), raw.raw[..], raw.start)
      ensures InsertedAt(old(Bytes()), Bytes(), kth, kth + 1, uid, key)
    {
      ghost var n := Bytes();
      ghost var p := raw.raw[..];
      var kk := GetRawKthKey(raw, kth);
      SetRawKthKey(raw, key, kth);
      ghost var p1 := raw.raw[..];
      ShiftRawKth(raw, kth + 1);
      ghost var p2 := raw.raw[..];
      SetRawKthKey(raw, kk, kth + 1);
      ghost var p3 := raw.raw[..];
      SetRawKthSon(raw, uid, kth + 1);
      ghost var p4 := raw.raw[..];
      SetRawNoKeys(raw, noKeys + 1);
      InnerInsertFields(n, Bytes(), kth, key, uid);
      SameOutsideTrans(p, p1, p2, p3, p4, raw.start);
      SameOutsideStep(p, p4, raw.raw[..], raw.start);
    }

    /** `needSplit`: exactly when the node holds 64 keys. */
    method NeedSplit() returns (b: bool)
      requires Valid()
      ensures b <==> KeyCountOf(Bytes()) == 64
    {
      var c := GetRawNoKeys(raw);
      b := 2 * BALANCE_NUMBER == c;
    }

    /**
     * `split`: a new node gets the leaf flag, the sibling and the upper 32 slots, and is inserted through
     * the data manager as the super transaction; this node keeps the lower 32 and links to the new one.
     * When the insert fails this node is as it was.
     */
    method Split(dm: DM.DataManagerImpl, cacheFull: bool) returns (r: Result<SplitRes>, ghost right: seq<byte>)
      requires Valid() && dm.Valid() && |dm.pages| + 1 < TWO_31
      modifies raw.raw, dm, dm.pIndex.lists, dm.logger
      ensures Valid() && dm.Valid() && IsNode(right)
      ensures SameOutside(old(raw.raw[..]), raw.raw[..], raw.start)
      ensures r.Ok? <==> !cacheFull
      ensures cacheFull ==> r == Err(CacheFull)
      ensures r.Err? ==> raw.raw[..] == old(raw.raw[..])
      ensures r.Ok? ==>
        && SplitInto(old(Bytes()), Bytes(), right, r.value.newSon) && r.value.newKey == KeyOf(right, 0)
        && DM.ItemReadable(dm.pages, r.value.newSon)
        && DM.ItemAt(dm.pages, r.value.newSon) == Some(DataItem.WrapDataItemRaw(right))
    {
      ghost var n := Bytes();
      var buf := RightHalf(raw);
      right := buf[..];
      var ins := InsertNode(dm, buf[..], cacheFull);
      if ins.Err? {
        return Err(ins.error), right;
      }
      var son := ins.value;
      ghost var p := raw.raw[..];
      SetRawNoKeys(raw, BALANCE_NUMBER);
      ghost var p1 := raw.raw[..];
      SetRawSibling(raw, son);
      SameOutsideStep(p, p1, raw.raw[..], raw.start);
      LeftHalfFields(n, son);
      var nodeRaw := SubArray(buf, 0, 1067);
      assert NodeOf(nodeRaw) == right;
      var newKey := GetRawKthKey(nodeRaw, 0);
      r := Ok(SplitRes(son, newKey));
    }

    /**
     * `insertAndSplit`, between `before` and either `after` (as the super transaction) or `unBefore`.
     * A rejected insert hands back the sibling to try and leaves the node as it was. An accepted one
     * puts the key in; at 64 keys the node then splits, and a failed split undoes the insert. Every
     * change that stays is logged as one update of the data item.
     */
    method InsertAndSplit(uid: int, key: int, dm: DM.DataManagerImpl, cacheFull: bool)
      returns (r: Result<InsertAndSplitRes>, ghost mid: seq<byte>, ghost right: seq<byte>, ghost logBefore: seq<byte>, ghost sumBefore: int)
      requires Valid() && CountFits(Bytes()) && KeyCountOf(Bytes()) <= 63 && IsLong(uid) && IsLong(key)
      requires dm.Valid() && |dm.pages| + 1 < TWO_31
      modifies raw.raw, dataItem.pg, dataItem.oldRaw, dm, dm.pIndex.lists, dm.logger
      ensures Valid() && dm.Valid() && IsNode(mid) && IsNode(right)
      ensures r.Err? || !Accepts(old(Bytes()), key) ==> raw.raw[..] == old(raw.raw[..])
      ensures !Accepts(old(Bytes()), key) ==>
        && r == Ok(InsertAndSplitRes(SiblingOf(old(Bytes())), 0, 0))
        && dm.pages == old(dm.pages) && unchanged(dm.logger)
      ensures Accepts(old(Bytes()), key) ==> InsertedInto(old(Bytes()), mid, uid, key)
      ensures Accepts(old(Bytes()), key) && KeyCountOf(old(Bytes())) < 63 ==>
        r == Ok(InsertAndSplitRes(0, 0, 0)) && Bytes() == mid && dm.pages == old(dm.pages)
      ensures Accepts(old(Bytes()), key) && KeyCountOf(old(Bytes())) == 63 ==>
        (r.Ok? <==> !cacheFull) && (cacheFull ==> r == Err(CacheFull))
      ensures Accepts(old(Bytes()), key) && KeyCountOf(old(Bytes())) == 63 && r.Ok? ==>
        && SplitInto(mid, Bytes(), right, r.value.newSon)
        && r.value.siblingUid == 0 && r.value.newKey == KeyOf(right, 0)
        && DM.ItemReadable(dm.pages, r.value.newSon)
        && DM.ItemAt(dm.pages, r.value.newSon) == Some(DataItem.WrapDataItemRaw(right))
      ensures Accepts(old(Bytes()), key) && r.Ok? ==>
        && dataItem.oldRaw[..] == old(dataItem.raw[dataItem.start..dataItem.end])
        && DM.Appended(logBefore, sumBefore, dm.logger.file, dm.logger.xChecksum, dataItem.UpdateRecord(TM.SUPER_XID))
        && (KeyCountOf(old(Bytes())) < 63 ==> logBefore == old(dm.logger.file) && sumBefore == old(dm.logger.xChecksum))
    {
      ghost var p := raw.raw[..];
      ghost var n := Bytes();
      right := n;
      var success := BeforeInsert(uid, key);
      mid := Bytes();
      logBefore, sumBefore := dm.logger.file, dm.logger.xChecksum;
      if !success {
        var sibling := Reject(p);
        return Ok(InsertAndSplitRes(sibling, 0, 0)), mid, right, logBefore, sumBefore;
      }
      var s;
      s, right, logBefore, sumBefore := SplitAndLog(dm, cacheFull, p);
      r := if s.Ok? then Ok(InsertAndSplitRes(0, s.value.newSon, s.value.newKey)) else Err(s.error);
    }

    /** `before` and then `insert`: the data item's span is saved, then the key goes in if the node accepts it. */
    method BeforeInsert(uid: int, key: int) returns (success: bool)
      requires Valid() && CountFits(Bytes()) && KeyCountOf(Bytes()) <= 63 && IsLong(uid) && IsLong(key)
      modifies raw.raw, dataItem.pg, dataItem.oldRaw
      ensures Valid() && success == Accepts(old(Bytes()), key)
      ensures success ==> InsertedInto(old(Bytes()), Bytes(), uid, key) && KeyCountOf(Bytes()) == KeyCountOf(old(Bytes())) + 1
      ensures !success ==> raw.raw[..] == old(raw.raw[..])
      ensures SameOutside(old(raw.raw[..]), raw.raw[..], raw.start)
      ensures dataItem.oldRaw[..] == old(raw.raw[..])[dataItem.start..dataItem.end]
      ensures dataItem.oldRaw[..] == old(dataItem.raw[dataItem.start..dataItem.end])
    {
      dataItem.Before();
      success := Insert(uid, key);
    }

    /**
     * The part of `insertAndSplit` after an insert went in: split at 64 keys, undo the insert when the
     * split fails, and otherwise log the update through `after`.
     */
    method SplitAndLog(dm: DM.DataManagerImpl, cacheFull: bool, ghost p: seq<byte>)
      returns (r: Result<SplitRes>, ghost right: seq<byte>, ghost logBefore: seq<byte>, ghost sumBefore: int)
      requires Valid() && dm.Valid() && |dm.pages| + 1 < TWO_31
      requires |p| == raw.raw.Length && SameOutside(p, raw.raw[..], raw.start)
      requires dataItem.oldRaw[..] == p[dataItem.start..dataItem.end]
      modifies raw.raw, dm, dm.pIndex.lists, dm.logger
      ensures Valid() && dm.Valid() && IsNode(right) && unchanged(dataItem.oldRaw)
      ensures r.Err? ==> raw.raw[..] == p && KeyCountOf(old(Bytes())) == 64
      ensures KeyCountOf(old(Bytes())) == 64 ==> (r.Ok? <==> !cacheFull) && (cacheFull ==> r == Err(CacheFull))
      ensures KeyCountOf(old(Bytes())) != 64 ==>
        && r == Ok(SplitRes(0, 0)) && raw.raw[..] == old(raw.raw[..]) && dm.pages == old(dm.pages)
        && logBefore == old(dm.logger.file) && sumBefore == old(dm.logger.xChecksum)
      ensures KeyCountOf(old(Bytes())) == 64 && r.Ok? ==>
        && SplitInto(old(Bytes()), Bytes(), right, r.value.newSon) && r.value.newKey == KeyOf(right, 0)
        && DM.ItemReadable(dm.pages, r.value.newSon)
        && DM.ItemAt(dm.pages, r.value.newSon) == Some(DataItem.WrapDataItemRaw(right))
      ensures r.Ok? ==>
        DM.Appended(logBefore, sumBefore, dm.logger.file, dm.logger.xChecksum, dataItem.UpdateRecord(TM.SUPER_XID))
    {
      right := Bytes();
      var split := NeedSplit();
      if split {
        r, right, logBefore, sumBefore := SplitThenLog(dm, cacheFull, p);
      } else {
        r := Ok(SplitRes(0, 0));
        logBefore, sumBefore := LogUpdate(dm);
      }
    }

    /** A node of 64 keys is split; a failed split restores the page, and a split that worked is logged. */
    method SplitThenLog(dm: DM.DataManagerImpl, cacheFull: bool, ghost p: seq<byte>)
      returns (r: Result<SplitRes>, ghost right: seq<byte>, ghost logBefore: seq<byte>, ghost sumBefore: int)
      requires Valid() && dm.Valid() && |dm.pages| + 1 < TWO_31
      requires |p| == raw.raw.Length && SameOutside(p, raw.raw[..], raw.start)
      requires dataItem.oldRaw[..] == p[dataItem.start..dataItem.end]
      modifies raw.raw, dm, dm.pIndex.lists, dm.logger
      ensures Valid() && dm.Valid() && IsNode(right) && unchanged(dataItem.oldRaw)
      ensures r.Ok? <==> !cacheFull
      ensures cacheFull ==> r == Err(CacheFull)
      ensures r.Err? ==> raw.raw[..] == p
      ensures r.Ok? ==>
        && SplitInto(old(Bytes()), Bytes(), right, r.value.newSon) && r.value.newKey == KeyOf(right, 0)
        && DM.ItemReadable(dm.pages, r.value.newSon)
        && DM.ItemAt(dm.pages, r.value.newSon) == Some(DataItem.WrapDataItemRaw(right))
        && DM.Appended(logBefore, sumBefore, dm.logger.file, dm.logger.xChecksum, dataItem.UpdateRecord(TM.SUPER_XID))
    {
      r, right := SplitOrUndo(dm, cacheFull, p);
      if r.Err? {
        return r, right, dm.logger.file, dm.logger.xChecksum;
      }
      ghost var bytes, pages := Bytes(), dm.pages;
      logBefore, sumBefore := LogUpdate(dm);
      assert Bytes() == bytes && dm.pages == pages;
    }

    /** `after(SUPER_XID)`: the data item's update record goes to the log. */
    method LogUpdate(dm: DM.DataManagerImpl) returns (ghost logBefore: seq<byte>, ghost sumBefore: int)
      requires Valid() && dm.Valid()
      modifies dm.logger
      ensures dm.Valid() && logBefore == old(dm.logger.file) && sumBefore == old(dm.logger.xChecksum)
      ensures DM.Appended(logBefore, sumBefore, dm.logger.file, dm.logger.xChecksum, dataItem.UpdateRecord(TM.SUPER_XID))
    {
      logBefore, sumBefore := dm.logger.file, dm.logger.xChecksum;
      dataItem.After(TM.SUPER_XID, dm.logger);
    }

    /** The split `insertAndSplit` makes after its insert went in; when the split fails, `unBefore` gives back `p`. */
    method SplitOrUndo(dm: DM.DataManagerImpl, cacheFull: bool, ghost p: seq<byte>) returns (r: Result<SplitRes>, ghost right: seq<byte>)
      requires Valid() && dm.Valid() && |dm.pages| + 1 < TWO_31
      requires |p| == raw.raw.Length && SameOutside(p, raw.raw[..], raw.start)
      requires dataItem.oldRaw[..] == p[dataItem.start..dataItem.end]
      modifies raw.raw, dm, dm.pIndex.lists, dm.logger
      ensures Valid() && dm.Valid() && IsNode(right) && unchanged(dataItem.oldRaw)
      ensures r.Ok? <==> !cacheFull
      ensures cacheFull ==> r == Err(CacheFull)
      ensures r.Err? ==> raw.raw[..] == p
      ensures r.Ok? ==>
        && SplitInto(old(Bytes()), Bytes(), right, r.value.newSon) && r.value.newKey == KeyOf(right, 0)
        && DM.ItemReadable(dm.pages, r.value.newSon)
        && DM.ItemAt(dm.pages, r.value.newSon) == Some(DataItem.WrapDataItemRaw(right))
    {
      ghost var q := raw.raw[..];
      r, right := Split(dm, cacheFull);
      if r.Err? {
        SameOutsideStep(p, q, raw.raw[..], raw.start);
        Undo(p);
      }
    }

    /** A refused insert: the sibling to try is read, and `unBefore` gives back `p`. */
    method Reject(ghost p: seq<byte>) returns (sibling: int)
      requires Valid() && |p| == raw.raw.Length && SameOutside(p, raw.raw[..], raw.start)
      requires dataItem.oldRaw[..] == p[dataItem.start..dataItem.end]
      modifies raw.raw
      ensures Valid() && raw.raw[..] == p && sibling == SiblingOf(old(Bytes()))
    {
      sibling := GetRawSibling(raw);
      Undo(p);
    }

    /** `unBefore` after an edit inside the node: the data item's page is back to `p`. */
    method Undo(ghost p: seq<byte>)
      requires Valid() && |p| == raw.raw.Length && SameOutside(p, raw.raw[..], raw.start)
      requires dataItem.oldRaw[..] == p[dataItem.start..dataItem.end]
      modifies raw.raw
      ensures Valid() && raw.raw[..] == p
    {
      ghost var e := raw.raw[..];
      OutsideSpan(p, e, raw.start, dataItem.start, dataItem.end);
      DataItemImpl.RestoreUndoesEdit(p, e, dataItem.start, dataItem.end);
      dataItem.UnBefore();
    }
  }

  /** The sons a scan collected one by one from slot `a` up to slot `b`. */
  lemma CollectedSons(n: seq<byte>, a: int, b: int, uids: seq<int>)
    requires IsNode(n) && CountFits(n) && 0 <= a <= b <= KeyCountOf(n) && |uids| == b - a
    requires forall j | a <= j < b :: uids[j - a] == SonOf(n, j)
    ensures uids == Sons(n)[a..b]
  {
    forall i | 0 <= i < b - a
      ensures uids[i] == Sons(n)[a..b][i]
    {
      assert uids[(a + i) - a] == SonOf(n, a + i);
    }
  }

  /** Two edits inside the node leave the bytes outside it as they were. */
  lemma SameOutsideStep(p: seq<byte>, q: seq<byte>, s: seq<byte>, start: int)
    requires SameOutside(p, q, start) && SameOutside(q, s, start)
    ensures SameOutside(p, s, start)
  {
  }

  lemma SameOutsideTrans(p: seq<byte>, p1: seq<byte>, p2: seq<byte>, p3: seq<byte>, p4: seq<byte>, start: int)
    requires SameOutside(p, p1, start) && SameOutside(p1, p2, start)
    requires SameOutside(p2, p3, start) && SameOutside(p3, p4, start)
    ensures SameOutside(p, p4, start)
  {
  }

  /** The scan positions the loops of `Node` end at are the ones `NodeLayout` defines. */
  lemma FirstAboveAt(s: seq<int>, x: int, i: int)
    requires 0 <= i <= |s| && (forall j | 0 <= j < i :: s[j] <= x) && (i < |s| ==> s[i] > x)
    ensures FirstAbove(s, x) == i
  {
  }

  lemma FirstAtLeastAt(s: seq<int>, x: int, i: int)
    requires 0 <= i <= |s| && (forall j | 0 <= j < i :: s[j] < x) && (i < |s| ==> s[i] >= x)
    ensures FirstAtLeast(s, x) == i
  {
  }

  lemma RangeEndAt(s: seq<int>, lo: int, hi: int, b: int)
    requires FirstAtLeast(s, lo) <= b <= |s|
    requires (forall j | FirstAtLeast(s, lo) <= j < b :: s[j] <= hi) && (b < |s| ==> s[b] > hi)
    ensures RangeEnd(s, lo, hi) == b
  {
    var a := FirstAtLeast(s, lo);
    FirstAboveAt(s[a..], hi, b - a);
  }
}
