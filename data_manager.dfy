/**
 * `DataManagerImpl`: inserts data items into pages chosen through the page index, writing the insert
 * record to the log before the page changes, and reads items back by uid. The page cache is
 * abstracted to the pages' current bytes, `pages[p - 1]` being page `p`; page one is the header page
 * and is never indexed. Whether fetching the selected page fails because the cache is full is a
 * parameter. The cache of data items `DataManagerImpl` inherits is not modelled, so `read` parses the
 * item straight from its page.
 */
module DataManager {
  import opened Wrappers
  import opened Bytes
  import opened Types
  import DataItem
  import Pages
  import PI = PageIndex
  import Logger
  import Recover
  import PageCache

  /** What the data manager did to the log and to the pages, in order. */
  datatype Event = Logged(log: seq<byte>) | PageWritten(pgno: int)

  /** Every page is PAGE_SIZE bytes; each page after page one has its FSO past the FSO field and inside the page. */
  ghost predicate PagesValid(pages: seq<seq<byte>>)
  {
    && |pages| >= 1
    && (forall p | 0 <= p < |pages| :: |pages[p]| == Pages.PAGE_SIZE)
    && (forall p | 1 <= p < |pages| :: Pages.OF_DATA <= Pages.FSO(pages[p]) <= Pages.PAGE_SIZE)
  }

  /** `e` is one of the index entries. */
  ghost predicate Listed(entries: multiset<PI.PageInfo>, e: PI.PageInfo)
  {
    e in entries
  }

  /**
   * The index never promises more room than a page has: every entry names a page after page one
   * with at least the entry's free space, and no page has two entries. The quantifiers fire only on
   * `Listed`, so the facts are used where a proof names an entry.
   */
  ghost predicate Accurate(entries: multiset<PI.PageInfo>, pages: seq<seq<byte>>)
  {
    && (forall e {:trigger Listed(entries, e)} | Listed(entries, e) ::
         && 2 <= e.pgno <= |pages| && |pages[e.pgno - 1]| >= Pages.OF_DATA
         && e.freeSpace <= Pages.FreeSpace(pages[e.pgno - 1]))
    && (forall e, e' {:trigger Listed(entries, e), Listed(entries, e')}
          | Listed(entries, e) && Listed(entries, e') && e.pgno == e'.pgno :: e == e')
    && (forall e {:trigger Listed(entries, e)} | Listed(entries, e) :: entries[e] == 1)
  }

  /** Every index entry names a page below `n`. */
  ghost predicate Below(entries: multiset<PI.PageInfo>, n: int)
  {
    forall e {:trigger Listed(entries, e)} | Listed(entries, e) :: e.pgno < n
  }

  /** No index entry names page `pgno`. */
  ghost predicate Unindexed(entries: multiset<PI.PageInfo>, pgno: int)
  {
    forall e {:trigger Listed(entries, e)} | Listed(entries, e) :: e.pgno != pgno
  }

  /** The free space of a page after page one can be indexed: it is at most MAX_FREE_SPACE. */
  lemma FreeSpaceIndexable(page: seq<byte>)
    requires |page| == Pages.PAGE_SIZE && Pages.OF_DATA <= Pages.FSO(page) <= Pages.PAGE_SIZE
    ensures 0 <= Pages.FreeSpace(page) <= Pages.MAX_FREE_SPACE
    ensures PI.Bucket(Pages.FreeSpace(page)) <= PI.INTERVALS_NO
  {
    PI.ThresholdValue();
  }

  /** Indexing a page that has no entry yet, with at most its free space, keeps the index accurate. */
  lemma AccurateAdd(entries: multiset<PI.PageInfo>, pages: seq<seq<byte>>, e: PI.PageInfo)
    requires Accurate(entries, pages) && Unindexed(entries, e.pgno)
    requires 2 <= e.pgno <= |pages| && |pages[e.pgno - 1]| >= Pages.OF_DATA
    requires e.freeSpace <= Pages.FreeSpace(pages[e.pgno - 1])
    ensures Accurate(entries + multiset{e}, pages)
  {
    var all := entries + multiset{e};
    assert !Listed(entries, e) && all[e] == 1;
    forall x | Listed(all, x) && x != e
      ensures Listed(entries, x) && all[x] == entries[x]
    {
    }
  }

  /**
   * Taking one entry out of an accurate index leaves it accurate and without an entry for that page,
   * and the page really has the free space the entry promised.
   */
  lemma AccurateRemove(entries: multiset<PI.PageInfo>, pages: seq<seq<byte>>, e: PI.PageInfo)
    requires Accurate(entries + multiset{e}, pages)
    ensures Accurate(entries, pages) && Unindexed(entries, e.pgno)
    ensures 2 <= e.pgno <= |pages| && |pages[e.pgno - 1]| >= Pages.OF_DATA
    ensures e.freeSpace <= Pages.FreeSpace(pages[e.pgno - 1])
  {
    var all := entries + multiset{e};
    assert Listed(all, e);
    forall e' | Listed(entries, e')
      ensures Listed(all, e') && e'.pgno != e.pgno
    {
    }
  }

  /** Rewriting a page no entry names keeps the index accurate. */
  lemma AccurateOtherPage(entries: multiset<PI.PageInfo>, pages: seq<seq<byte>>, pgno: int, page: seq<byte>)
    requires Accurate(entries, pages) && Unindexed(entries, pgno) && 1 <= pgno <= |pages|
    ensures Accurate(entries, pages[pgno - 1 := page])
  {
  }

  /** Appending a page keeps the index accurate, and the new page has no entry. */
  lemma AccurateGrow(entries: multiset<PI.PageInfo>, pages: seq<seq<byte>>, page: seq<byte>)
    requires Accurate(entries, pages)
    ensures Accurate(entries, pages + [page]) && Unindexed(entries, |pages| + 1)
  {
  }

  /** When every entry names a page below `n`, page `n` has no entry, and adding one for it keeps the bound at `n + 1`. */
  lemma BelowAdd(entries: multiset<PI.PageInfo>, n: int)
    requires Below(entries, n)
    ensures Unindexed(entries, n)
    ensures forall f :: Below(entries + multiset{PI.PageInfo(n, f)}, n + 1)
  {
    forall f, x | Listed(entries + multiset{PI.PageInfo(n, f)}, x)
      ensures x.pgno < n + 1
    {
      if x != PI.PageInfo(n, f) {
        assert Listed(entries, x);
      }
    }
  }

  /** `e` is the last entry of the bucket of its free space. */
  ghost predicate LastAdded(buckets: seq<seq<PI.PageInfo>>, e: PI.PageInfo)
  {
    && e.freeSpace >= 0
    && 0 <= PI.Bucket(e.freeSpace) < |buckets|
    && buckets[PI.Bucket(e.freeSpace)] != []
    && buckets[PI.Bucket(e.freeSpace)][|buckets[PI.Bucket(e.freeSpace)]| - 1] == e
  }

  /** The pages after allocating a fresh one, when the page count says one was allocated. */
  function Grown(pages: seq<seq<byte>>, n: int): seq<seq<byte>>
  {
    if n > |pages| then pages + [Pages.InitRaw()] else pages
  }

  /** Page `pgno` exists and holds at `offset` a span of non-negative length, as the item's size field gives it. */
  ghost predicate AddressReadable(pages: seq<seq<byte>>, pgno: int, offset: int)
  {
    && 1 <= pgno <= |pages|
    && 0 <= offset && offset + DataItem.OF_DATA <= |pages[pgno - 1]|
    && 0 <= DataItem.ItemLength(pages[pgno - 1], offset)
    && offset + DataItem.ItemLength(pages[pgno - 1], offset) <= |pages[pgno - 1]|
  }

  /**
   * The item at `offset` of page `pgno`: None when its valid flag is not 0, and otherwise its raw
   * span, flag and size field included.
   */
  function ItemAtAddress(pages: seq<seq<byte>>, pgno: int, offset: int): (r: Option<seq<byte>>)
    requires AddressReadable(pages, pgno, offset)
    ensures r.None? <==> !DataItem.IsValidRaw(pages[pgno - 1], offset)
    ensures r.Some? ==> |r.value| == DataItem.ItemLength(pages[pgno - 1], offset)
  {
    var page := pages[pgno - 1];
    if page[offset + DataItem.OF_VALID] != 0 then None
    else Some(page[offset..offset + DataItem.ItemLength(page, offset)])
  }

  /** The uid names a readable item: the page in its bits 32..63, the offset in its low 16 bits. */
  ghost predicate ItemReadable(pages: seq<seq<byte>>, uid: int)
  {
    IsLong(uid) && AddressReadable(pages, UidPgno(uid), UidOffset(uid))
  }

  /** What `read` gives for a uid: the item at the address the uid decodes to. */
  function ItemAt(pages: seq<seq<byte>>, uid: int): (r: Option<seq<byte>>)
    requires ItemReadable(pages, uid)
    ensures r.None? <==> !DataItem.IsValidRaw(pages[UidPgno(uid) - 1], UidOffset(uid))
  {
    ItemAtAddress(pages, UidPgno(uid), UidOffset(uid))
  }

  /** Reading through the uid made of a page number and an offset reads the item at that address. */
  lemma UidReadsAddress(pages: seq<seq<byte>>, pgno: int, offset: int)
    requires 0 <= pgno < TWO_31 && 0 <= offset < TWO_15 && AddressReadable(pages, pgno, offset)
    ensures ItemReadable(pages, AddressToUid(pgno, offset))
    ensures ItemAt(pages, AddressToUid(pgno, offset)) == ItemAtAddress(pages, pgno, offset)
  {
    UidRoundTrip(pgno, offset);
  }

  /**
   * An item wrapped and stored at `offset` of page `pgno` reads back from that address as exactly the
   * wrapped bytes.
   */
  lemma InsertedReadsBack(pages: seq<seq<byte>>, pgno: int, offset: int, data: seq<byte>)
    requires 1 <= pgno <= |pages| && 0 <= offset
    requires |data| + DataItem.OF_DATA <= Pages.MAX_FREE_SPACE
    requires offset + |data| + DataItem.OF_DATA <= |pages[pgno - 1]|
    requires pages[pgno - 1][offset..offset + |data| + DataItem.OF_DATA] == DataItem.WrapDataItemRaw(data)
    ensures AddressReadable(pages, pgno, offset)
    ensures ItemAtAddress(pages, pgno, offset) == Some(DataItem.WrapDataItemRaw(data))
  {
    var page := pages[pgno - 1];
    var w := DataItem.WrapDataItemRaw(data);
    DataItem.ParseWrapped(page, offset, data);
    assert page[offset] == w[0];
  }

  /**
   * The insert record written before `PageX.insert` is one recovery accepts, and it redoes the insert
   * by writing the item at its position in the page file, and undoes it by writing the item flagged
   * invalid there.
   */
  lemma InsertRecordRecovers(xid: int, pgno: int, offset: int, raw: seq<byte>)
    requires 0 <= xid < TWO_63 && 1 <= pgno < TWO_31 && 0 <= offset < TWO_15
    requires 0 < |raw| && offset + |raw| <= Pages.PAGE_SIZE
    ensures var log := Recover.InsertLog(xid, pgno, offset, raw);
      && Recover.Recoverable(log)
      && Recover.LogWrite(log, Recover.REDO) == Recover.Write(PageCache.PageOffset(pgno) + offset, raw)
      && Recover.LogWrite(log, Recover.UNDO) == Recover.Write(PageCache.PageOffset(pgno) + offset, DataItem.InvalidRaw(raw))
  {
    Recover.InsertLogRoundTrip(xid, pgno, offset, raw);
  }

  /**
   * The pages after `PageX.insert` of `raw` into page `pgno`: it went in at the page's FSO when it
   * fits, and otherwise no page changed.
   */
  ghost predicate Stored(before: seq<seq<byte>>, after: seq<seq<byte>>, pgno: int, offset: int, raw: seq<byte>, ok: bool)
  {
    && 2 <= pgno <= |before| && PagesValid(before)
    && offset == Pages.FSO(before[pgno - 1]) && 0 <= offset < TWO_15
    && (ok <==> Pages.InsertFits(before[pgno - 1], raw))
    && (ok ==>
         && after == before[pgno - 1 := Pages.Inserted(before[pgno - 1], raw)])
    && (!ok ==> after == before)
  }

  /**
   * `insert` followed by `read`: after a wrapped item was stored, the uid made of its page and offset
   * reads back exactly the wrapped bytes.
   */
  lemma StoredReadsBack(before: seq<seq<byte>>, after: seq<seq<byte>>, pgno: int, offset: int, data: seq<byte>)
    requires Stored(before, after, pgno, offset, DataItem.WrapDataItemRaw(data), true) && pgno < TWO_31
    ensures ItemReadable(after, AddressToUid(pgno, offset))
    ensures ItemAt(after, AddressToUid(pgno, offset)) == Some(DataItem.WrapDataItemRaw(data))
  {
    var raw := DataItem.WrapDataItemRaw(data);
    Pages.InsertedHolds(before[pgno - 1], raw);
    InsertedReadsBack(after, pgno, offset, data);
    UidReadsAddress(after, pgno, offset);
  }

  /** The log after `log(data)`: the wrapped record appended, and the file's checksum field rewritten. */
  ghost predicate Appended(file: seq<byte>, xChecksum: int, file': seq<byte>, xChecksum': int, data: seq<byte>)
  {
    && IsInt(xChecksum) && |data| < TWO_31
    && xChecksum' == Logger.Checksum(xChecksum, Logger.WrapLog(data))
    && file' == WriteAt(file + Logger.WrapLog(data), 0, Int2Byte(xChecksum'))
  }

  class DataManagerImpl {
    const pIndex: PI.PageIndex
    const logger: Logger.LoggerImpl
    /** The bytes of every page, page `p` at `p - 1`. */
    var pages: seq<seq<byte>>
    /** The log appends and page writes made so far, in order. */
    ghost var trace: seq<Event>

    ghost predicate Valid()
      reads this, pIndex, pIndex.lists, logger
    {
      && pIndex.Valid() && logger.Valid() && PagesValid(pages)
      && Accurate(PI.Entries(pIndex.lists[..]), pages)
    }

    /** A data manager over the given pages and log, with an empty page index. */
    constructor (pages: seq<seq<byte>>, logger: Logger.LoggerImpl)
      requires PagesValid(pages) && logger.Valid()
      ensures Valid() && fresh(pIndex) && fresh(pIndex.lists)
      ensures forall b | 0 <= b < pIndex.lists.Length :: pIndex.lists[b] == []
      ensures this.pages == pages && this.logger == logger && trace == []
    {
      pIndex := new PI.PageIndex();
      this.logger := logger;
      this.pages := pages;
      trace := [];
    }

    /**
     * `insert`. Data whose wrapped item exceeds MAX_FREE_SPACE is refused with DataTooLarge and
     * nothing changes. Otherwise a page with room is selected; when there is none a page is allocated
     * and indexed with MAX_FREE_SPACE, and that page always has room, so at most one page is ever
     * allocated and DatabaseBusy is never raised. The index never promises more room than a page has,
     * so the item always fits the selected page. That page leaves the index and goes back exactly
     * once, as the last entry of its bucket: with free space 0 when fetching it fails, and otherwise
     * with its free space after the insert. The insert record reaches the log before the page is
     * written, and the returned uid reads back as the wrapped item.
     */
    method Insert(xid: int, data: seq<byte>, cacheFull: bool)
      returns (r: Result<int>, ghost pgno: int, ghost offset: int, ghost grown: seq<seq<byte>>, ghost added: PI.PageInfo)
      requires Valid() && 0 <= xid < TWO_63 && |pages| + 1 < TWO_31
      modifies this, pIndex.lists, logger
      ensures Valid()
      ensures r == Err(DataTooLarge) <==> |DataItem.WrapDataItemRaw(data)| > Pages.MAX_FREE_SPACE
      ensures |data| + DataItem.OF_DATA > Pages.MAX_FREE_SPACE ==>
        && pages == old(pages) && pIndex.lists[..] == old(pIndex.lists[..])
        && trace == old(trace) && unchanged(logger)
      ensures |data| + DataItem.OF_DATA <= Pages.MAX_FREE_SPACE ==>
        && old(|pages|) <= |grown| <= old(|pages|) + 1 && grown == Grown(old(pages), |grown|)
        && 2 <= pgno <= |grown| == |pages|
        && pIndex.Size() == old(pIndex.Size()) + |grown| - old(|pages|)
        && LastAdded(pIndex.lists[..], added) && added.pgno == pgno
      ensures |data| + DataItem.OF_DATA <= Pages.MAX_FREE_SPACE && cacheFull ==>
        && r == Err(CacheFull) && pages == grown && added.freeSpace == 0
        && trace == old(trace) && unchanged(logger)
      ensures |data| + DataItem.OF_DATA <= Pages.MAX_FREE_SPACE && !cacheFull ==>
        && Stored(grown, pages, pgno, offset, DataItem.WrapDataItemRaw(data), true)
        && r == Ok(AddressToUid(pgno, offset))
        && added.freeSpace == Pages.PAGE_SIZE - offset - (|data| + DataItem.OF_DATA)
      ensures |data| + DataItem.OF_DATA <= Pages.MAX_FREE_SPACE && !cacheFull ==>
        var log := Recover.InsertLog(xid, pgno, offset, DataItem.WrapDataItemRaw(data));
        && Appended(old(logger.file), old(logger.xChecksum), logger.file, logger.xChecksum, log)
        && trace == old(trace) + [Logged(log), PageWritten(pgno)]
    {
      PI.ThresholdValue();
      var raw := DataItem.WrapDataItemRaw(data);
      if |raw| > Pages.MAX_FREE_SPACE {
        return Err(DataTooLarge), 0, 0, pages, PI.PageInfo(0, 0);
      }
      r, pgno, offset, grown, added := InsertFitting(xid, raw, data, cacheFull);
    }

    /** `insert` of an item that fits in an empty page: select a page, then insert into it or fail to fetch it. */
    method InsertFitting(xid: int, raw: seq<byte>, ghost data: seq<byte>, cacheFull: bool)
      returns (r: Result<int>, ghost pgno: int, ghost offset: int, ghost grown: seq<seq<byte>>, ghost added: PI.PageInfo)
      requires Valid() && 0 <= xid < TWO_63 && |pages| + 1 < TWO_31
      requires raw == DataItem.WrapDataItemRaw(data) && |raw| <= Pages.MAX_FREE_SPACE
      modifies this, pIndex.lists, logger
      ensures Valid() && r != Err(DataTooLarge)
      ensures old(|pages|) <= |grown| <= old(|pages|) + 1 && grown == Grown(old(pages), |grown|)
      ensures 2 <= pgno <= |grown| == |pages|
      ensures pIndex.Size() == old(pIndex.Size()) + |grown| - old(|pages|)
      ensures LastAdded(pIndex.lists[..], added) && added.pgno == pgno
      ensures cacheFull ==>
        && r == Err(CacheFull) && pages == grown && added.freeSpace == 0
        && trace == old(trace) && unchanged(logger)
      ensures !cacheFull ==>
        && Stored(grown, pages, pgno, offset, raw, true)
        && r == Ok(AddressToUid(pgno, offset))
        && added.freeSpace == Pages.PAGE_SIZE - offset - |raw|
      ensures !cacheFull ==>
        var log := Recover.InsertLog(xid, pgno, offset, raw);
        && Appended(old(logger.file), old(logger.xChecksum), logger.file, logger.xChecksum, log)
        && trace == old(trace) + [Logged(log), PageWritten(pgno)]
    {
      var info := SelectPage(|raw|);
      var pg := info.pgno;
      pgno, grown := pg, pages;
      if cacheFull {
        ReAdd(pg, 0);
        r, offset, added := Err(CacheFull), 0, PI.PageInfo(pg, 0);
      } else {
        var off, ok := InsertSelected(xid, pg, raw, data);
        offset, added := off, PI.PageInfo(pg, Pages.PAGE_SIZE - off - (if ok then |raw| else 0));
        r := if ok then Ok(AddressToUid(pg, off)) else Err(IndexOutOfBounds);
        assert ok;
      }
    }

    /**
     * The body of `insert`'s `try` on the selected page: the insert record goes to the log before the
     * page changes, then `PageX.insert`, then the `finally` re-adds the page with its free space.
     * Returns the offset used, the page's FSO, and whether the item fitted; it always does, because
     * the page was selected with at least that much free space and is no longer indexed.
     */
    method InsertSelected(xid: int, pgno: int, raw: seq<byte>, ghost data: seq<byte>) returns (offset: int, ok: bool)
      requires Valid() && 0 <= xid < TWO_63 && 2 <= pgno <= |pages| < TWO_31
      requires raw == DataItem.WrapDataItemRaw(data) && |raw| <= Pages.FreeSpace(pages[pgno - 1])
      requires Unindexed(PI.Entries(pIndex.lists[..]), pgno)
      modifies this, pIndex.lists, logger
      ensures ok
      ensures Valid() && pIndex.Size() == old(pIndex.Size()) + 1 && |pages| == old(|pages|)
      ensures LastAdded(pIndex.lists[..], PI.PageInfo(pgno, Pages.PAGE_SIZE - offset - (if ok then |raw| else 0)))
      ensures Stored(old(pages), pages, pgno, offset, raw, ok)
      ensures Appended(old(logger.file), old(logger.xChecksum), logger.file, logger.xChecksum, Recover.InsertLog(xid, pgno, offset, raw))
      ensures trace == old(trace) + [Logged(Recover.InsertLog(xid, pgno, offset, raw))] + (if ok then [PageWritten(pgno)] else [])
    {
      offset := Pages.FSO(pages[pgno - 1]);
      var log := Recover.InsertLog(xid, pgno, offset, raw);
      logger.Log(log);
      trace := trace + [Logged(log)];
      ok := PageInsert(pgno, raw);
      assert Stored(old(pages), pages, pgno, offset, raw, ok);
      ghost var pagesNow, traceNow := pages, trace;
      ReAdd(pgno, Pages.FreeSpace(pages[pgno - 1]));
      assert pages == pagesNow && trace == traceNow;
    }

    /**
     * The `finally` of `insert`: the selected page goes back into the index with the given free
     * space, as the last entry of that free space's bucket.
     */
    method ReAdd(pgno: int, freeSpace: int)
      requires Valid() && 2 <= pgno <= |pages| && 0 <= freeSpace <= Pages.FreeSpace(pages[pgno - 1])
      requires Unindexed(PI.Entries(pIndex.lists[..]), pgno)
      modifies pIndex.lists
      ensures Valid() && LastAdded(pIndex.lists[..], PI.PageInfo(pgno, freeSpace))
      ensures pIndex.Size() == old(pIndex.Size()) + 1
    {
      PI.ThresholdValue();
      FreeSpaceIndexable(pages[pgno - 1]);
      AccurateAdd(PI.Entries(pIndex.lists[..]), pages, PI.PageInfo(pgno, freeSpace));
      pIndex.Add(pgno, freeSpace);
    }

    /**
     * `PageX.insert` on page `pgno`: the item goes in at the page's FSO and the FSO moves past it,
     * when it fits; otherwise the copy would run past the page and the page is left as it was.
     */
    method PageInsert(pgno: int, raw: seq<byte>) returns (ok: bool)
      requires Valid() && 2 <= pgno <= |pages| && |raw| <= Pages.MAX_FREE_SPACE
      requires Unindexed(PI.Entries(pIndex.lists[..]), pgno)
      modifies this
      ensures Valid() && unchanged(pIndex.lists)
      ensures ok <==> Pages.InsertFits(old(pages[pgno - 1]), raw)
      ensures ok ==> pages == old(pages)[pgno - 1 := Pages.Inserted(old(pages[pgno - 1]), raw)]
      ensures ok ==> pages[pgno - 1][Pages.FSO(old(pages[pgno - 1]))..Pages.FSO(old(pages[pgno - 1])) + |raw|] == raw
      ensures ok ==> trace == old(trace) + [PageWritten(pgno)]
      ensures !ok ==> pages == old(pages) && trace == old(trace)
      ensures 0 <= Pages.FreeSpace(pages[pgno - 1]) <= Pages.MAX_FREE_SPACE
      ensures Pages.FreeSpace(pages[pgno - 1]) == Pages.FreeSpace(old(pages[pgno - 1])) - (if ok then |raw| else 0)
    {
      var page := pages[pgno - 1];
      FreeSpaceIndexable(page);
      if !Pages.InsertFits(page, raw) {
        return false;
      }
      var written := Pages.Inserted(page, raw);
      Pages.InsertedHolds(page, raw);
      Pages.InsertedFreeSpace(page, raw);
      AccurateOtherPage(PI.Entries(pIndex.lists[..]), pages, pgno, written);
      pages := pages[pgno - 1 := written];
      trace := trace + [PageWritten(pgno)];
      FreeSpaceIndexable(written);
      ok := true;
    }

    /**
     * The retry loop of `insert`: up to five selects, each failure allocating a page and indexing it
     * with MAX_FREE_SPACE. After one allocation the last bucket holds a page with room for any request
     * up to MAX_FREE_SPACE, so the second select always succeeds: the loop allocates at most one page
     * and never ends without a page.
     */
    method SelectPage(spaceSize: int) returns (info: PI.PageInfo)
      requires Valid() && 0 <= spaceSize <= Pages.MAX_FREE_SPACE && |pages| + 1 < TWO_31
      modifies this, pIndex.lists
      ensures Valid() && trace == old(trace)
      ensures old(|pages|) <= |pages| <= old(|pages|) + 1 && pages == Grown(old(pages), |pages|)
      ensures pIndex.Size() + 1 == old(pIndex.Size()) + |pages| - old(|pages|)
      ensures info.freeSpace >= spaceSize && 2 <= info.pgno <= |pages|
      ensures info.freeSpace <= Pages.FreeSpace(pages[info.pgno - 1]) && Unindexed(PI.Entries(pIndex.lists[..]), info.pgno)
    {
      PI.ThresholdValue();
      ghost var n0 := |pages|;
      var pi: Option<PI.PageInfo> := None;
      var i := 0;
      while i < 5
        invariant 0 <= i <= 1 && pi.None?
        invariant Valid() && trace == old(trace)
        invariant |pages| == n0 + i && pages == Grown(old(pages), |pages|)
        invariant pIndex.Size() == old(pIndex.Size()) + i
        invariant i == 1 ==> PI.PageInfo(|pages|, Pages.MAX_FREE_SPACE) in pIndex.lists[PI.INTERVALS_NO]
      {
        pi := TrySelect(spaceSize);
        if pi.Some? {
          break;
        }
        // With a page of MAX_FREE_SPACE in the last bucket, the select always succeeds.
        assert i == 0;
        AllocatePage();
        i := i + 1;
      }
      // `pi == null` here would raise DatabaseBusy; the loop never ends without a page.
      if pi.None? {
        assert false;
      }
      info := pi.value;
    }

    /** One `pIndex.select(spaceSize)` of the retry loop; every entry left names an existing page. */
    method TrySelect(spaceSize: int) returns (pi: Option<PI.PageInfo>)
      requires Valid() && 0 <= spaceSize <= Pages.MAX_FREE_SPACE
      modifies pIndex.lists
      ensures Valid()
      ensures pi.Some? ==> pi.value.freeSpace >= spaceSize && 2 <= pi.value.pgno <= |pages|
      ensures pi.Some? ==> pi.value.freeSpace <= Pages.FreeSpace(pages[pi.value.pgno - 1])
      ensures pi.Some? ==> Unindexed(PI.Entries(pIndex.lists[..]), pi.value.pgno)
      ensures pi.Some? ==> pIndex.Size() == old(pIndex.Size()) - 1
      ensures pi.None? ==> pIndex.lists[..] == old(pIndex.lists[..])
      ensures PI.PageInfo(|pages|, Pages.MAX_FREE_SPACE) in old(pIndex.lists[PI.INTERVALS_NO]) ==> pi.Some?
    {
      ghost var before := PI.Entries(pIndex.lists[..]);
      pi := pIndex.SelectWithRoom(spaceSize);
      if pi.Some? {
        ghost var after := PI.Entries(pIndex.lists[..]);
        assert after + multiset{pi.value} == before;
        AccurateRemove(after, pages, pi.value);
      }
    }

    /**
     * The failure branch of the retry loop: a fresh page is allocated with `PageX.initRaw` and indexed
     * in the last bucket with MAX_FREE_SPACE.
     */
    method AllocatePage()
      requires Valid() && |pages| + 1 < TWO_31
      modifies this, pIndex.lists
      ensures Valid() && trace == old(trace) && pages == old(pages) + [Pages.InitRaw()]
      ensures pIndex.Size() == old(pIndex.Size()) + 1
      ensures PI.PageInfo(|pages|, Pages.MAX_FREE_SPACE) in pIndex.lists[PI.INTERVALS_NO]
    {
      PI.ThresholdValue();
      AccurateGrow(PI.Entries(pIndex.lists[..]), pages, Pages.InitRaw());
      pages := pages + [Pages.InitRaw()];
      var newPgno := |pages|;
      AccurateAdd(PI.Entries(pIndex.lists[..]), pages, PI.PageInfo(newPgno, Pages.MAX_FREE_SPACE));
      pIndex.Add(newPgno, Pages.MAX_FREE_SPACE);
    }

    /**
     * One turn of the loop of `fillPageIndex`: page `i`, which has no entry yet, is added with its
     * free space.
     */
    method IndexPage(i: int)
      requires Valid() && 2 <= i <= |pages| && Below(PI.Entries(pIndex.lists[..]), i)
      modifies pIndex.lists
      ensures Valid() && Below(PI.Entries(pIndex.lists[..]), i + 1)
      ensures 0 <= Pages.FreeSpace(pages[i - 1]) && PI.Bucket(Pages.FreeSpace(pages[i - 1])) <= PI.INTERVALS_NO
      ensures var free := Pages.FreeSpace(pages[i - 1]);
        pIndex.lists[..] == old(pIndex.lists[..])[PI.Bucket(free) := old(pIndex.lists[PI.Bucket(free)]) + [PI.PageInfo(i, free)]]
      ensures pIndex.Size() == old(pIndex.Size()) + 1
    {
      var free := Pages.FreeSpace(pages[i - 1]);
      FreeSpaceIndexable(pages[i - 1]);
      ghost var entries := PI.Entries(pIndex.lists[..]);
      BelowAdd(entries, i);
      AccurateAdd(entries, pages, PI.PageInfo(i, free));
      pIndex.Add(i, free);
      assert PI.Entries(pIndex.lists[..]) == entries + multiset{PI.PageInfo(i, free)};
    }

    /**
     * `fillPageIndex`: every page 2..|pages| is added once, in page order, with its free space. It is
     * called on the empty index of a data manager just opened.
     */
    method FillPageIndex()
      requires Valid() && PI.Entries(pIndex.lists[..]) == multiset{}
      modifies pIndex.lists
      ensures Valid() && Addable(PageInfos(pages))
      ensures pIndex.lists[..] == AddedAll(old(pIndex.lists[..]), PageInfos(pages))
      ensures pIndex.Size() == old(pIndex.Size()) + |pages| - 1
    {
      ghost var infos := PageInfos(pages);
      PageInfosAddable(pages);
      var i := 2;
      while i <= |pages|
        invariant 2 <= i <= |pages| + 1
        invariant Valid()
        invariant pIndex.lists[..] == AddedAll(old(pIndex.lists[..]), infos[..i - 2])
        invariant pIndex.Size() == old(pIndex.Size()) + i - 2
        invariant Below(PI.Entries(pIndex.lists[..]), i)
      {
        IndexPage(i);
        assert infos[..i - 1] == infos[..i - 2] + [infos[i - 2]];
        i := i + 1;
      }
      assert infos[..i - 2] == infos;
    }
  }

  /** The entries `fillPageIndex` adds, in order: page p, for p from 2 to |pages|, with its free space. */
  function PageInfos(pages: seq<seq<byte>>): seq<PI.PageInfo>
    requires PagesValid(pages)
  {
    seq(|pages| - 1, k requires 0 <= k < |pages| - 1 => PI.PageInfo(k + 2, Pages.FreeSpace(pages[k + 1])))
  }

  /** Every entry has a free space that has a bucket. */
  ghost predicate Addable(infos: seq<PI.PageInfo>)
  {
    forall k | 0 <= k < |infos| :: 0 <= infos[k].freeSpace && PI.Bucket(infos[k].freeSpace) <= PI.INTERVALS_NO
  }

  /** The buckets after `add` of each entry in turn. */
  function AddedAll(buckets: seq<seq<PI.PageInfo>>, infos: seq<PI.PageInfo>): (r: seq<seq<PI.PageInfo>>)
    requires |buckets| == PI.INTERVALS_NO + 1 && Addable(infos)
    ensures |r| == |buckets|
  {
    if infos == [] then buckets
    else
      var b := AddedAll(buckets, infos[..|infos| - 1]);
      var e := infos[|infos| - 1];
      b[PI.Bucket(e.freeSpace) := b[PI.Bucket(e.freeSpace)] + [e]]
  }

  /** The free space of every page after page one has a bucket. */
  lemma {:induction false} PageInfosAddable(pages: seq<seq<byte>>)
    requires PagesValid(pages)
    ensures Addable(PageInfos(pages))
  {
    forall k | 0 <= k < |pages| - 1
      ensures 0 <= PageInfos(pages)[k].freeSpace && PI.Bucket(PageInfos(pages)[k].freeSpace) <= PI.INTERVALS_NO
    {
      FreeSpaceIndexable(pages[k + 1]);
    }
  }

  /** Adding the entries in turn adds exactly that many entries, each to the bucket of its free space. */
  lemma {:induction false} AddedAllContains(buckets: seq<seq<PI.PageInfo>>, infos: seq<PI.PageInfo>)
    requires |buckets| == PI.INTERVALS_NO + 1 && Addable(infos)
    ensures PI.Total(AddedAll(buckets, infos)) == PI.Total(buckets) + |infos|
    ensures forall k | 0 <= k < |infos| :: infos[k] in AddedAll(buckets, infos)[PI.Bucket(infos[k].freeSpace)]
  {
    if infos != [] {
      var front := infos[..|infos| - 1];
      var b := AddedAll(buckets, front);
      var e := infos[|infos| - 1];
      AddedAllContains(buckets, front);
      PI.TotalUpdate(b, PI.Bucket(e.freeSpace), b[PI.Bucket(e.freeSpace)] + [e]);
      forall k | 0 <= k < |infos|
        ensures infos[k] in AddedAll(buckets, infos)[PI.Bucket(infos[k].freeSpace)]
      {
        if k < |infos| - 1 {
          assert infos[k] == front[k];
        }
      }
    }
  }

  /**
   * After `fillPageIndex` on an empty index, every page 2..|pages| is indexed with its free space, in
   * the bucket of that free space, and the index holds no other entry: |pages| - 1 entries in all,
   * one per page.
   */
  lemma {:induction false} FillIndexesEachPageOnce(buckets: seq<seq<PI.PageInfo>>, pages: seq<seq<byte>>)
    requires PagesValid(pages) && |buckets| == PI.INTERVALS_NO + 1 && PI.Total(buckets) == 0
    ensures Addable(PageInfos(pages))
    ensures PI.Total(AddedAll(buckets, PageInfos(pages))) == |pages| - 1
    ensures forall p | 1 <= p < |pages| ::
      PI.PageInfo(p + 1, Pages.FreeSpace(pages[p])) in AddedAll(buckets, PageInfos(pages))[PI.Bucket(Pages.FreeSpace(pages[p]))]
  {
    PageInfosAddable(pages);
    var infos := PageInfos(pages);
    AddedAllContains(buckets, infos);
    forall p | 1 <= p < |pages|
      ensures PI.PageInfo(p + 1, Pages.FreeSpace(pages[p])) in AddedAll(buckets, infos)[PI.Bucket(Pages.FreeSpace(pages[p]))]
    {
      assert infos[p - 1] == PI.PageInfo(p + 1, Pages.FreeSpace(pages[p]));
    }
  }
}
