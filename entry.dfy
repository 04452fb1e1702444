/**
 * `Entry`: the version manager's record, stored as the data of one data item, laid out as
 * `[xmin:8][xmax:8][data]`. `xmin` is the xid that created the version and `xmax` the xid that deleted
 * it, 0 while it is not deleted. The read/write lock of the data item is not modelled.
 */
module Entry {
  import opened Wrappers
  import opened Bytes
  import DataItem
  import DataItemImpl
  import Logger
  import Recover

  const OF_XMIN: int := 0
  const OF_XMAX: int := 8
  const OF_DATA: int := 16

  /** `wrapEntryRaw`: xmin set to `xid`, xmax to 0, then the data. */
  function WrapEntryRaw(xid: int, data: seq<byte>): (r: seq<byte>)
    requires IsLong(xid)
    ensures |r| == |data| + OF_DATA
  {
    Long2Byte(xid) + Zeros(8) + data
  }

  /** `getXmin` on the bytes of an entry. */
  function XminOf(e: seq<byte>): (x: int)
    requires |e| >= OF_DATA
    ensures IsLong(x)
  {
    ParseLong(e[OF_XMIN..OF_XMAX])
  }

  /** `getXmax` on the bytes of an entry. */
  function XmaxOf(e: seq<byte>): (x: int)
    requires |e| >= OF_DATA
    ensures IsLong(x)
  {
    ParseLong(e[OF_XMAX..OF_DATA])
  }

  /** `data()` on the bytes of an entry. */
  function DataOf(e: seq<byte>): (d: seq<byte>)
    requires |e| >= OF_DATA
    ensures |d| == |e| - OF_DATA
  {
    e[OF_DATA..]
  }

  /** The bytes of an entry after `setXmax(xid)`. */
  function WithXmax(e: seq<byte>, xid: int): (r: seq<byte>)
    requires |e| >= OF_DATA && IsLong(xid)
    ensures |r| == |e|
  {
    Overwrite(e, OF_XMAX, Long2Byte(xid))
  }

  /** A wrapped entry reads back its creator as xmin, 0 as xmax, and its data. */
  lemma WrapEntryRoundTrip(xid: int, data: seq<byte>)
    requires IsLong(xid)
    ensures XminOf(WrapEntryRaw(xid, data)) == xid
    ensures XmaxOf(WrapEntryRaw(xid, data)) == 0
    ensures DataOf(WrapEntryRaw(xid, data)) == data
  {
    var e := WrapEntryRaw(xid, data);
    assert e[OF_XMIN..OF_XMAX] == Long2Byte(xid);
    assert e[OF_XMAX..OF_DATA] == Zeros(8);
    LongRoundTrip(xid);
    Pow256Values();
    ZerosDecode(8);
  }

  /** `setXmax` makes xmax read back as the new xid and leaves xmin and the data as they were. */
  lemma WithXmaxFields(e: seq<byte>, xid: int)
    requires |e| >= OF_DATA && IsLong(xid)
    ensures XmaxOf(WithXmax(e, xid)) == xid
    ensures XminOf(WithXmax(e, xid)) == XminOf(e)
    ensures DataOf(WithXmax(e, xid)) == DataOf(e)
  {
    var r := WithXmax(e, xid);
    assert r[OF_XMAX..OF_DATA] == Long2Byte(xid);
    assert r[OF_XMIN..OF_XMAX] == e[OF_XMIN..OF_XMAX];
    assert r[OF_DATA..] == e[OF_DATA..];
    LongRoundTrip(xid);
  }

  class Entry {
    const uid: int
    const dataItem: DataItemImpl.DataItemImpl

    /** The data item is well formed, lies in its page, and its data part holds at least the two xid fields. */
    ghost predicate Valid()
      reads this, dataItem
    {
      && dataItem.Valid() && dataItem.end <= dataItem.raw.Length
      && dataItem.start + DataItem.OF_DATA + OF_DATA <= dataItem.end
    }

    /** The entry's bytes: the data part of its data item, `dataItem.data()`. */
    ghost function Raw(): (e: seq<byte>)
      requires Valid()
      reads this, dataItem, dataItem.raw
      ensures |e| >= OF_DATA
    {
      dataItem.raw[dataItem.start + DataItem.OF_DATA..dataItem.end]
    }

    constructor (uid: int, dataItem: DataItemImpl.DataItemImpl)
      ensures this.uid == uid && this.dataItem == dataItem
    {
      this.uid := uid;
      this.dataItem := dataItem;
    }

    method GetXmin() returns (x: int)
      requires Valid()
      ensures x == XminOf(Raw())
    {
      var sa := dataItem.Data();
      x := ParseLong(sa.raw[sa.start + OF_XMIN..sa.start + OF_XMAX]);
      SubSlice(dataItem.raw[..], dataItem.start + DataItem.OF_DATA, dataItem.end, OF_XMIN, OF_XMAX);
      assert sa.raw[sa.start + OF_XMIN..sa.start + OF_XMAX] == Raw()[OF_XMIN..OF_XMAX];
    }

    method GetXmax() returns (x: int)
      requires Valid()
      ensures x == XmaxOf(Raw())
    {
      var sa := dataItem.Data();
      x := ParseLong(sa.raw[sa.start + OF_XMAX..sa.start + OF_DATA]);
      SubSlice(dataItem.raw[..], dataItem.start + DataItem.OF_DATA, dataItem.end, OF_XMAX, OF_DATA);
      assert sa.raw[sa.start + OF_XMAX..sa.start + OF_DATA] == Raw()[OF_XMAX..OF_DATA];
    }

    /** `data()`: a fresh copy of the entry's data. */
    method Data() returns (d: array<byte>)
      requires Valid()
      ensures fresh(d) && d[..] == DataOf(Raw())
    {
      var sa := dataItem.Data();
      d := NewBuffer(sa.raw[sa.start + OF_DATA..sa.end]);
    }

    /**
     * `setXmax`: between the data item's `before` and `after(xid)`, the xid is written into the xmax
     * field in place. The page is marked dirty, the span's old bytes are saved, and the update record
     * holding the old and the new span goes to the log.
     */
    method SetXmax(xid: int, lg: Logger.LoggerImpl)
      requires Valid() && IsLong(xid)
      requires lg.Valid() && Recover.OF_UPDATE_RAW + 2 * (dataItem.end - dataItem.start) < TWO_31
      modifies dataItem.pg, dataItem.oldRaw, dataItem.raw, lg
      ensures Valid() && Raw() == WithXmax(old(Raw()), xid)
      ensures dataItem.raw[..] ==
        Overwrite(old(dataItem.raw[..]), dataItem.start + DataItem.OF_DATA + OF_XMAX, Long2Byte(xid))
      ensures dataItem.pg.dirty && dataItem.oldRaw[..] == old(dataItem.raw[dataItem.start..dataItem.end])
      ensures var log := Recover.UpdateLog(xid, dataItem.uid, old(dataItem.raw[dataItem.start..dataItem.end]),
          dataItem.raw[dataItem.start..dataItem.end]);
        && lg.Valid()
        && lg.xChecksum == Logger.Checksum(old(lg.xChecksum), Logger.WrapLog(log))
        && lg.file == WriteAt(old(lg.file) + Logger.WrapLog(log), 0, Int2Byte(lg.xChecksum))
    {
      dataItem.Before();
      var sa := dataItem.Data();
      ghost var before := sa.raw[..];
      WriteBytes(sa.raw, sa.start + OF_XMAX, Long2Byte(xid));
      WithXmaxSpan(before, dataItem.start + DataItem.OF_DATA, dataItem.end, xid);
      dataItem.After(xid, lg);
    }
  }

  /** Writing xmax into the whole page changes the entry's span as `WithXmax` says. */
  lemma WithXmaxSpan(page: seq<byte>, lo: nat, hi: nat, xid: int)
    requires lo + OF_DATA <= hi <= |page| && IsLong(xid)
    ensures Overwrite(page, lo + OF_XMAX, Long2Byte(xid))[lo..hi] == WithXmax(page[lo..hi], xid)
  {
    var r := Overwrite(page, lo + OF_XMAX, Long2Byte(xid));
    var w := WithXmax(page[lo..hi], xid);
    forall i | 0 <= i < hi - lo
      ensures r[lo..hi][i] == w[i]
    {
      OverwriteAt(page, lo + OF_XMAX, Long2Byte(xid), lo + i);
      OverwriteAt(page[lo..hi], OF_XMAX, Long2Byte(xid), i);
    }
  }

  /** `newEntry`: no entry without a data item; otherwise one over it with the given uid. */
  method NewEntry(dataItem: Option<DataItemImpl.DataItemImpl>, uid: int) returns (r: Option<Entry>)
    ensures r.None? <==> dataItem.None?
    ensures r.Some? ==> fresh(r.value) && r.value.dataItem == dataItem.value && r.value.uid == uid
  {
    if dataItem.None? {
      return None;
    }
    var e := new Entry(uid, dataItem.value);
    r := Some(e);
  }
}
