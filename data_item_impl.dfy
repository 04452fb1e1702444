/** `SubArray`: a window `[start, end)` over a shared byte array. */
module Common {
  import opened Bytes

  datatype SubArray = SubArray(raw: array<byte>, start: int, end: int)
}

/**
 * `DataItemImpl`: a data item living in a cached page. Its raw span is a window over the page's own
 * buffer, so writes through it change the page; `oldRaw` is a buffer of the span's length that holds
 * the bytes before an update, for the update record and for `unBefore`. The read/write lock is not
 * modelled.
 */
module DataItemImpl {
  import opened Wrappers
  import opened Bytes
  import opened Types
  import opened Common
  import DataItem
  import Pages
  import Recover
  import Logger
  import PageCache

  class DataItemImpl {
    const raw: array<byte>
    const start: int
    const end: int
    const oldRaw: array<byte>
    const pg: Pages.Page
    const uid: int

    /**
     * The span lies in the page's buffer, past a readable size field; `oldRaw` is a separate buffer of
     * the span's length; the uid names the page and the span's offset.
     */
    ghost predicate Valid()
      reads this
    {
      && raw == pg.data && oldRaw != raw
      && 0 <= start && start + DataItem.OF_DATA <= raw.Length && start <= end
      && oldRaw.Length == end - start
      && 0 <= pg.pageNumber < TWO_31 && start < TWO_15 && uid == AddressToUid(pg.pageNumber, start)
    }

    constructor (raw: SubArray, oldRaw: array<byte>, pg: Pages.Page, uid: int)
      ensures this.raw == raw.raw && start == raw.start && end == raw.end
      ensures this.oldRaw == oldRaw && this.pg == pg && this.uid == uid
    {
      this.raw := raw.raw;
      start := raw.start;
      end := raw.end;
      this.oldRaw := oldRaw;
      this.pg := pg;
      this.uid := uid;
    }

    /** `isValid`: the valid flag at the start of the span is 0. */
    method IsValid() returns (b: bool)
      requires Valid()
      ensures b <==> DataItem.IsValidRaw(raw[..], start)
    {
      b := raw[start + DataItem.OF_VALID] == 0;
    }

    /** `data`: the data part of the span, as a window over the same buffer. */
    function Data(): (d: SubArray)
      requires Valid()
      reads this
      ensures d.raw == raw && d.start == start + DataItem.OF_DATA && d.end == end
    {
      SubArray(raw, start + DataItem.OF_DATA, end)
    }

    /** `before`: marks the page dirty and saves the span into `oldRaw`; the page's bytes are unchanged. */
    method Before()
      requires Valid() && end <= raw.Length
      modifies pg, oldRaw
      ensures pg.dirty && oldRaw[..] == raw[start..end]
    {
      pg.dirty := true;
      ArrayCopy(raw, start, oldRaw, 0, oldRaw.Length);
    }

    /** `unBefore`: writes `oldRaw` back over the span; no byte outside the span changes. */
    method UnBefore()
      requires Valid() && end <= raw.Length
      modifies raw
      ensures raw[..] == Restored(old(raw[..]), start, oldRaw[..])
    {
      ArrayCopy(oldRaw, 0, raw, start, oldRaw.Length);
    }

    /** The update record `after(xid)` logs: the uid, the saved bytes and the span's bytes now. */
    function UpdateRecord(xid: int): (log: seq<byte>)
      requires Valid() && end <= raw.Length && IsLong(xid)
      reads this, raw, oldRaw
      ensures |log| == Recover.OF_UPDATE_RAW + 2 * (end - start)
    {
      Recover.UpdateLog(xid, uid, oldRaw[..], raw[start..end])
    }

    /**
     * `after`: appends the update record to the log (through `logDataItem`), before the write lock
     * would be released.
     */
    method After(xid: int, lg: Logger.LoggerImpl)
      requires Valid() && end <= raw.Length && IsLong(xid)
      requires lg.Valid() && Recover.OF_UPDATE_RAW + 2 * (end - start) < TWO_31
      modifies lg
      ensures lg.Valid()
      ensures lg.xChecksum == Logger.Checksum(old(lg.xChecksum), Logger.WrapLog(UpdateRecord(xid)))
      ensures lg.file == WriteAt(old(lg.file) + Logger.WrapLog(UpdateRecord(xid)), 0, Int2Byte(lg.xChecksum))
      ensures lg.position == old(lg.position) && lg.fileSize == old(lg.fileSize)
    {
      var log := Recover.UpdateLog(xid, uid, oldRaw[..], raw[start..end]);
      lg.Log(log);
    }
  }

  /** The page after `unBefore`: `saved` written back at `start`. */
  function Restored(page: seq<byte>, start: nat, saved: seq<byte>): (r: seq<byte>)
    requires start + |saved| <= |page|
    ensures |r| == |page| && r[start..start + |saved|] == saved
    ensures forall i | 0 <= i < |page| && !(start <= i < start + |saved|) :: r[i] == page[i]
  {
    Overwrite(page, start, saved)
  }

  /**
   * `before`, any edit inside the span, then `unBefore` gives back the page as it was at `before`:
   * restoring the saved span over a page that differs from the original only inside the span yields
   * the original.
   */
  lemma RestoreUndoesEdit(original: seq<byte>, edited: seq<byte>, start: nat, end: nat)
    requires start <= end <= |original| == |edited|
    requires forall i | 0 <= i < |original| && !(start <= i < end) :: edited[i] == original[i]
    ensures Restored(edited, start, original[start..end]) == original
  {
    var r := Restored(edited, start, original[start..end]);
    forall i | 0 <= i < |original|
      ensures r[i] == original[i]
    {
      if start <= i < end {
        assert r[i] == r[start..end][i - start];
      }
    }
  }

  /**
   * The record `after` logs for an item on a page recovery can write undoes to the saved bytes and
   * redoes to the current ones, both at the item's position in the page file.
   */
  lemma AfterRecordRecovers(pgno: int, start: int, xid: int, saved: seq<byte>, now: seq<byte>)
    requires 1 <= pgno < TWO_31 && 0 <= start < TWO_15 && 0 <= xid < TWO_63
    requires |saved| == |now| && start + |saved| <= Pages.PAGE_SIZE
    ensures var log := Recover.UpdateLog(xid, AddressToUid(pgno, start), saved, now);
      && Recover.Recoverable(log)
      && Recover.LogWrite(log, Recover.UNDO) == Recover.Write(PageCache.PageOffset(pgno) + start, saved)
      && Recover.LogWrite(log, Recover.REDO) == Recover.Write(PageCache.PageOffset(pgno) + start, now)
  {
    Recover.UpdateLogRoundTrip(xid, pgno, start, saved, now);
  }

  /**
   * `parseDataItem`: the item at `offset` of the page, its span `offset + (short)(size + 3)` long as
   * the size field gives it, with a fresh `oldRaw` of that length; None where `new byte[length]` would
   * throw because the length is negative.
   */
  method ParseDataItem(pg: Pages.Page, offset: int) returns (r: Option<DataItemImpl>)
    requires 0 <= offset < TWO_15 && offset + DataItem.OF_DATA <= pg.data.Length
    requires 0 <= pg.pageNumber < TWO_31
    ensures r.None? <==> DataItem.ItemLength(pg.data[..], offset) < 0
    ensures r.Some? ==> var di := r.value;
      && fresh(di) && fresh(di.oldRaw) && di.Valid()
      && di.pg == pg && di.start == offset && di.end == offset + DataItem.ItemLength(pg.data[..], offset)
      && di.uid == AddressToUid(pg.pageNumber, offset)
  {
    var page := pg.data;
    var size := ParseShort(page[offset + DataItem.OF_SIZE..offset + DataItem.OF_DATA]);
    var length := JavaShort(size + DataItem.OF_DATA);
    if length < 0 {
      return None;
    }
    var uid := AddressToUid(pg.pageNumber, offset);
    var oldRaw := new byte[length];
    var di := new DataItemImpl(SubArray(page, offset, offset + length), oldRaw, pg, uid);
    r := Some(di);
  }
}
