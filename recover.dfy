/**
 * `Recover`: the insert and update log records the data manager writes, and crash recovery from
 * them. Recovery reads the records `Logger.next` yields after a rewind, asks the
 * transaction manager which xids are still active, and rewrites the page file: it truncates the file
 * to the highest page a record names, redoes the records of every xid that is not active, in log
 * order, then undoes the records of every active xid, newest first, and marks that xid aborted.
 *
 * The page cache is collapsed into the page file: `pc.getPage`, `PageX.recoverInsert` or
 * `PageX.recoverUpdate` and `release` together overwrite the record's bytes at its page and offset.
 * `PageX` is not part of this model; it is assumed to do that overwrite.
 */
module Recover {
  import opened Wrappers
  import opened Bytes
  import opened Types
  import DataItem
  import TM = TransactionManager
  import Pages
  import PageCache
  import Logger

  const LOG_TYPE_INSERT: byte := 0
  const LOG_TYPE_UPDATE: byte := 1

  // [LogType] [XID] [UID] [OldRaw] [NewRaw]
  const OF_TYPE: int := 0
  const OF_XID: int := 1
  const OF_UPDATE_UID: int := 9
  const OF_UPDATE_RAW: int := 17

  // [LogType] [XID] [Pgno] [Offset] [Raw]
  const OF_INSERT_PGNO: int := 9
  const OF_INSERT_OFFSET: int := 13
  const OF_INSERT_RAW: int := 15

  datatype Flag = REDO | UNDO

  datatype InsertLogInfo = InsertLogInfo(xid: int, pgno: int, offset: int, raw: seq<byte>)
  datatype UpdateLogInfo = UpdateLogInfo(xid: int, pgno: int, offset: int, oldRaw: seq<byte>, newRaw: seq<byte>)

  /** `isInsertLog`: only a type byte of 0 makes an insert record; any other byte an update. */
  predicate IsInsertLog(log: seq<byte>)
    requires |log| > 0
  {
    log[OF_TYPE] == LOG_TYPE_INSERT
  }

  /** `updateLog`: the item's uid, its bytes before the update and its bytes now. */
  function UpdateLog(xid: int, uid: int, oldRaw: seq<byte>, newRaw: seq<byte>): (log: seq<byte>)
    requires IsLong(xid) && IsLong(uid)
    ensures |log| == OF_UPDATE_RAW + |oldRaw| + |newRaw|
    ensures !IsInsertLog(log)
  {
    [LOG_TYPE_UPDATE] + Long2Byte(xid) + Long2Byte(uid) + oldRaw + newRaw
  }

  /** `parseUpdateLog`: the raw part is split into two halves of equal length. */
  function ParseUpdateLog(log: seq<byte>): (li: UpdateLogInfo)
    requires |log| >= OF_UPDATE_RAW
    ensures |li.oldRaw| == |li.newRaw| == (|log| - OF_UPDATE_RAW) / 2
    ensures IsLong(li.xid) && IsInt(li.pgno) && IsShort(li.offset)
  {
    var uid := ParseLong(log[OF_UPDATE_UID..OF_UPDATE_RAW]);
    var length := (|log| - OF_UPDATE_RAW) / 2;
    UpdateLogInfo(ParseLong(log[OF_XID..OF_UPDATE_UID]), UidPgno(uid), UidOffset(uid),
      log[OF_UPDATE_RAW..OF_UPDATE_RAW + length], log[OF_UPDATE_RAW + length..OF_UPDATE_RAW + 2 * length])
  }

  /** `insertLog`: the page number and the page's free-space offset, where the item is put. */
  function InsertLog(xid: int, pgno: int, offset: int, raw: seq<byte>): (log: seq<byte>)
    requires IsLong(xid) && IsInt(pgno) && IsShort(offset)
    ensures |log| == OF_INSERT_RAW + |raw|
    ensures IsInsertLog(log)
  {
    [LOG_TYPE_INSERT] + Long2Byte(xid) + Int2Byte(pgno) + Short2Byte(offset) + raw
  }

  function ParseInsertLog(log: seq<byte>): (li: InsertLogInfo)
    requires |log| >= OF_INSERT_RAW
    ensures |li.raw| == |log| - OF_INSERT_RAW
    ensures IsLong(li.xid) && IsInt(li.pgno) && IsShort(li.offset)
  {
    InsertLogInfo(ParseLong(log[OF_XID..OF_INSERT_PGNO]), ParseInt(log[OF_INSERT_PGNO..OF_INSERT_OFFSET]),
      ParseShort(log[OF_INSERT_OFFSET..OF_INSERT_RAW]), log[OF_INSERT_RAW..])
  }

  /** An insert record parses back to the xid, page, offset and item it was made from. */
  lemma InsertLogRoundTrip(xid: int, pgno: int, offset: int, raw: seq<byte>)
    requires IsLong(xid) && IsInt(pgno) && IsShort(offset)
    ensures ParseInsertLog(InsertLog(xid, pgno, offset, raw)) == InsertLogInfo(xid, pgno, offset, raw)
  {
    var log := InsertLog(xid, pgno, offset, raw);
    assert log[OF_XID..OF_INSERT_PGNO] == Long2Byte(xid);
    assert log[OF_INSERT_PGNO..OF_INSERT_OFFSET] == Int2Byte(pgno);
    assert log[OF_INSERT_OFFSET..OF_INSERT_RAW] == Short2Byte(offset);
    assert log[OF_INSERT_RAW..] == raw;
    LongRoundTrip(xid);
    IntRoundTrip(pgno);
    ShortRoundTrip(offset);
  }

  /**
   * An update record of an item at (pgno, offset) parses back to its xid, page, offset and both
   * images, provided the two images have the same length, as every item's do.
   */
  lemma UpdateLogRoundTrip(xid: int, pgno: int, offset: int, oldRaw: seq<byte>, newRaw: seq<byte>)
    requires IsLong(xid) && 0 <= pgno < TWO_31 && 0 <= offset < TWO_15 && |oldRaw| == |newRaw|
    ensures ParseUpdateLog(UpdateLog(xid, AddressToUid(pgno, offset), oldRaw, newRaw))
      == UpdateLogInfo(xid, pgno, offset, oldRaw, newRaw)
  {
    var uid := AddressToUid(pgno, offset);
    var log := UpdateLog(xid, uid, oldRaw, newRaw);
    assert log[OF_XID..OF_UPDATE_UID] == Long2Byte(xid);
    assert log[OF_UPDATE_UID..OF_UPDATE_RAW] == Long2Byte(uid);
    var n := |oldRaw|;
    assert log[OF_UPDATE_RAW..OF_UPDATE_RAW + n] == oldRaw;
    assert log[OF_UPDATE_RAW + n..OF_UPDATE_RAW + 2 * n] == newRaw;
    LongRoundTrip(xid);
    LongRoundTrip(uid);
    UidRoundTrip(pgno, offset);
  }

  /** Images of different lengths do not survive: the halves are cut at the middle of both. */
  lemma UpdateLogUnequalImages()
    ensures ParseUpdateLog(UpdateLog(1, AddressToUid(2, 0), [], [7, 7])).oldRaw == [7]
  {
    var log := UpdateLog(1, AddressToUid(2, 0), [], [7, 7]);
    assert log[OF_UPDATE_RAW..OF_UPDATE_RAW + 1] == [7];
  }

  // ---- The records recovery can replay ----

  /**
   * A record recovery can replay without the parsers or the page writes throwing: long enough for
   * its kind, naming a non-negative xid and a page 1 or higher, with its bytes inside that page, and,
   * for an insert, a non-empty item whose valid flag undo can clear.
   */
  predicate Recoverable(log: seq<byte>)
  {
    && |log| > 0
    && if IsInsertLog(log) then
         && |log| > OF_INSERT_RAW
         && var li := ParseInsertLog(log);
            li.xid >= 0 && li.pgno >= 1 && li.offset >= 0 && li.offset + |li.raw| <= Pages.PAGE_SIZE
       else
         && |log| >= OF_UPDATE_RAW
         && var li := ParseUpdateLog(log);
            li.xid >= 0 && li.pgno >= 1 && li.offset >= 0 && li.offset + |li.oldRaw| <= Pages.PAGE_SIZE
  }

  predicate AllRecoverable(records: seq<seq<byte>>)
  {
    forall log | log in records :: Recoverable(log)
  }

  function XidOf(log: seq<byte>): (x: nat)
    requires Recoverable(log)
  {
    if IsInsertLog(log) then ParseInsertLog(log).xid else ParseUpdateLog(log).xid
  }

  function PgnoOf(log: seq<byte>): (p: int)
    requires Recoverable(log)
    ensures p >= 1
  {
    if IsInsertLog(log) then ParseInsertLog(log).pgno else ParseUpdateLog(log).pgno
  }

  /** A write of `data` at byte `pos` of the page file. */
  datatype Write = Write(pos: int, data: seq<byte>)

  predicate Fits(w: Write, n: int)
  {
    0 <= w.pos && w.pos + |w.data| <= n
  }

  /**
   * The write `doInsertLog` (for an insert) or `doUpdateLog` (for an update) makes: redo puts back
   * the inserted item or the new image, undo the item with its valid flag cleared or the old image.
   */
  function LogWrite(log: seq<byte>, flag: Flag): (w: Write)
    requires Recoverable(log)
    ensures Fits(w, PageCache.PageOffset(PgnoOf(log) + 1))
  {
    if IsInsertLog(log) then
      var li := ParseInsertLog(log);
      Write(PageCache.PageOffset(li.pgno) + li.offset, if flag == UNDO then DataItem.InvalidRaw(li.raw) else li.raw)
    else
      var li := ParseUpdateLog(log);
      Write(PageCache.PageOffset(li.pgno) + li.offset, if flag == UNDO then li.oldRaw else li.newRaw)
  }

  /** The page file after one write (the overwrite `recoverInsert` / `recoverUpdate` performs). */
  function ApplyWrite(file: seq<byte>, w: Write): (r: seq<byte>)
    requires Fits(w, |file|)
    ensures |r| == |file|
  {
    Overwrite(file, w.pos, w.data)
  }

  predicate AllFit(ws: seq<Write>, n: int)
  {
    forall w | w in ws :: Fits(w, n)
  }

  /** The page file after the writes, in order. */
  function Apply(file: seq<byte>, ws: seq<Write>): (r: seq<byte>)
    requires AllFit(ws, |file|)
    ensures |r| == |file|
  {
    if ws == [] then file else ApplyWrite(Apply(file, ws[..|ws| - 1]), ws[|ws| - 1])
  }

  /** The byte the last write covering `i` leaves there, if any write covers it. */
  function Cover(ws: seq<Write>, i: int): Option<byte>
  {
    if ws == [] then None
    else
      var w := ws[|ws| - 1];
      if w.pos <= i < w.pos + |w.data| then Some(w.data[i - w.pos]) else Cover(ws[..|ws| - 1], i)
  }

  lemma {:induction false} ApplyAt(file: seq<byte>, ws: seq<Write>, i: nat)
    requires AllFit(ws, |file|) && i < |file|
    ensures Apply(file, ws)[i] == if Cover(ws, i).Some? then Cover(ws, i).value else file[i]
  {
    if ws != [] {
      var p := ws[..|ws| - 1];
      var w := ws[|ws| - 1];
      assert w in ws;
      ApplyAt(file, p, i);
      OverwriteAt(Apply(file, p), w.pos, w.data, i);
    }
  }

  /** Replaying the same writes a second time changes nothing: each byte keeps its last writer. */
  lemma ApplyTwice(file: seq<byte>, ws: seq<Write>)
    requires AllFit(ws, |file|)
    ensures Apply(Apply(file, ws), ws) == Apply(file, ws)
  {
    var once := Apply(file, ws);
    forall i | 0 <= i < |file|
      ensures Apply(once, ws)[i] == once[i]
    {
      ApplyAt(once, ws, i);
      ApplyAt(file, ws, i);
    }
  }

  lemma ApplySnoc(file: seq<byte>, ws: seq<Write>, w: Write)
    requires AllFit(ws + [w], |file|)
    ensures AllFit(ws, |file|)
    ensures Apply(file, ws + [w]) == ApplyWrite(Apply(file, ws), w)
  {
    assert (ws + [w])[..|ws|] == ws;
  }

  lemma {:induction false} ApplyConcat(file: seq<byte>, a: seq<Write>, b: seq<Write>)
    requires AllFit(a + b, |file|)
    ensures AllFit(a, |file|) && AllFit(b, |file|)
    ensures Apply(file, a + b) == Apply(Apply(file, a), b)
  {
    if b == [] {
      assert a + b == a;
    } else {
      var p := b[..|b| - 1];
      assert a + b == (a + p) + [b[|b| - 1]];
      ApplySnoc(file, a + p, b[|b| - 1]);
      ApplyConcat(file, a, p);
      assert b == p + [b[|b| - 1]];
      ApplySnoc(Apply(file, a), p, b[|b| - 1]);
    }
  }

  // ---- Truncation ----

  /** The highest page any record names, 0 when there are no records. */
  function MaxPgno(records: seq<seq<byte>>): (m: int)
    requires AllRecoverable(records)
    ensures m >= 0 && (records == [] <==> m == 0)
    ensures forall log | log in records :: PgnoOf(log) <= m
  {
    if records == [] then 0
    else
      var m := MaxPgno(records[..|records| - 1]);
      var p := PgnoOf(records[|records| - 1]);
      assert forall log | log in records :: log in records[..|records| - 1] || log == records[|records| - 1];
      if p > m then p else m
  }

  /** The maximum is attained: some record names exactly that page. */
  lemma {:induction false} MaxPgnoAttained(records: seq<seq<byte>>)
    requires AllRecoverable(records) && records != []
    ensures exists log | log in records :: PgnoOf(log) == MaxPgno(records)
  {
    var last := records[|records| - 1];
    var p := records[..|records| - 1];
    if p != [] && PgnoOf(last) <= MaxPgno(p) {
      MaxPgnoAttained(p);
      var log :| log in p && PgnoOf(log) == MaxPgno(p);
      assert log in records;
    } else {
      assert last in records;
    }
  }

  /** The number of pages recovery truncates the file to: the highest page named, or 1 with no records. */
  function RecoverPages(records: seq<seq<byte>>): (n: int)
    requires AllRecoverable(records)
    ensures n >= 1
  {
    if MaxPgno(records) == 0 then 1 else MaxPgno(records)
  }

  /** Every record's write, redo or undo, lies inside the truncated file. */
  lemma WritesFitTruncated(records: seq<seq<byte>>, flag: Flag)
    requires AllRecoverable(records)
    ensures forall log | log in records :: Fits(LogWrite(log, flag), PageCache.PageOffset(RecoverPages(records) + 1))
  {
    forall log | log in records
      ensures Fits(LogWrite(log, flag), PageCache.PageOffset(RecoverPages(records) + 1))
    {
      assert PgnoOf(log) <= RecoverPages(records);
    }
  }

  // ---- Redo ----

  /** The records whose xid the status file does not show active, in log order. */
  function Inactive(records: seq<seq<byte>>, xidFile: seq<byte>): (r: seq<seq<byte>>)
    requires AllRecoverable(records)
    ensures forall log | log in r :: log in records && !TM.Active(xidFile, XidOf(log))
  {
    if records == [] then []
    else
      var last := records[|records| - 1];
      var p := Inactive(records[..|records| - 1], xidFile);
      if TM.Active(xidFile, XidOf(last)) then p else p + [last]
  }

  /** Every record of a non-active xid is redone. */
  lemma {:induction false} InactiveComplete(records: seq<seq<byte>>, xidFile: seq<byte>)
    requires AllRecoverable(records)
    ensures forall log | log in records && !TM.Active(xidFile, XidOf(log)) :: log in Inactive(records, xidFile)
  {
    if records != [] {
      var p := records[..|records| - 1];
      InactiveComplete(p, xidFile);
      assert forall log | log in records :: log in p || log == records[|records| - 1];
    }
  }

  /** The writes of the records, in order. */
  function WritesOf(logs: seq<seq<byte>>, flag: Flag): (ws: seq<Write>)
    requires AllRecoverable(logs)
    ensures |ws| == |logs|
  {
    if logs == [] then [] else WritesOf(logs[..|logs| - 1], flag) + [LogWrite(logs[|logs| - 1], flag)]
  }

  /** The redo pass's writes: the non-active records' redo writes, in log order. */
  function RedoWrites(records: seq<seq<byte>>, xidFile: seq<byte>): seq<Write>
    requires AllRecoverable(records)
  {
    WritesOf(Inactive(records, xidFile), REDO)
  }

  /** The writes of records that all name pages up to `n` fit a file of `n` pages. */
  lemma {:induction false} WritesOfFit(logs: seq<seq<byte>>, flag: Flag, n: int)
    requires AllRecoverable(logs)
    requires forall log | log in logs :: Fits(LogWrite(log, flag), PageCache.PageOffset(n + 1))
    ensures AllFit(WritesOf(logs, flag), PageCache.PageOffset(n + 1))
  {
    if logs != [] {
      WritesOfFit(logs[..|logs| - 1], flag, n);
    }
  }

  lemma RedoWritesFit(records: seq<seq<byte>>, xidFile: seq<byte>)
    requires AllRecoverable(records)
    ensures AllFit(RedoWrites(records, xidFile), PageCache.PageOffset(RecoverPages(records) + 1))
  {
    WritesFitTruncated(records, REDO);
    WritesOfFit(Inactive(records, xidFile), REDO, RecoverPages(records));
  }

  /**
   * Redo is idempotent: replaying the redo pass on its own result changes nothing, so a crash during
   * recovery followed by another recovery redoes to the same bytes.
   */
  lemma RedoIdempotent(file: seq<byte>, records: seq<seq<byte>>, xidFile: seq<byte>)
    requires AllRecoverable(records) && |file| == PageCache.PageOffset(RecoverPages(records) + 1)
    ensures AllFit(RedoWrites(records, xidFile), |file|)
    ensures Apply(Apply(file, RedoWrites(records, xidFile)), RedoWrites(records, xidFile))
      == Apply(file, RedoWrites(records, xidFile))
  {
    RedoWritesFit(records, xidFile);
    ApplyTwice(file, RedoWrites(records, xidFile));
  }

  // ---- Undo ----

  /** The records of one xid, in log order. */
  function OfXid(records: seq<seq<byte>>, x: nat): (r: seq<seq<byte>>)
    requires AllRecoverable(records)
    ensures forall log | log in r :: log in records && XidOf(log) == x
  {
    if records == [] then []
    else
      var last := records[|records| - 1];
      var p := OfXid(records[..|records| - 1], x);
      if XidOf(last) == x then p + [last] else p
  }

  /** `logCache` after the scan: each active xid with records, mapped to its records in log order. */
  function Collect(records: seq<seq<byte>>, xidFile: seq<byte>): map<nat, seq<seq<byte>>>
    requires AllRecoverable(records)
  {
    if records == [] then map[]
    else
      var last := records[|records| - 1];
      var m := Collect(records[..|records| - 1], xidFile);
      var x := XidOf(last);
      if !TM.Active(xidFile, x) then m
      else m[x := (if x in m then m[x] else []) + [last]]
  }

  /**
   * The cache groups exactly the active xids' records: its keys are the active xids that have
   * records, and each key maps to all of that xid's records, in log order.
   */
  lemma {:induction false} CollectGroups(records: seq<seq<byte>>, xidFile: seq<byte>)
    requires AllRecoverable(records)
    ensures forall x | x in Collect(records, xidFile) :: TM.Active(xidFile, x) && Collect(records, xidFile)[x] == OfXid(records, x)
    ensures forall log | log in records && TM.Active(xidFile, XidOf(log)) :: XidOf(log) in Collect(records, xidFile)
  {
    if records != [] {
      var p := records[..|records| - 1];
      CollectGroups(p, xidFile);
      assert forall log | log in records :: log in p || log == records[|records| - 1];
      var m := Collect(p, xidFile);
      var x := XidOf(records[|records| - 1]);
      if TM.Active(xidFile, x) && x !in m {
        OfXidNone(p, x);
      }
    }
  }

  lemma {:induction false} OfXidNone(records: seq<seq<byte>>, x: nat)
    requires AllRecoverable(records)
    requires forall log | log in records :: XidOf(log) != x
    ensures OfXid(records, x) == []
  {
    if records != [] {
      var p := records[..|records| - 1];
      assert forall log | log in p :: log in records;
      OfXidNone(p, x);
    }
  }

  /** The undo writes of one xid's records, newest record first. */
  function UndoWritesOf(logs: seq<seq<byte>>): (ws: seq<Write>)
    requires AllRecoverable(logs)
    ensures |ws| == |logs|
  {
    if logs == [] then [] else UndoWritesOf(logs[1..]) + [LogWrite(logs[0], UNDO)]
  }

  /** The undo pass's writes, xid by xid in the order the cache is visited. */
  function UndoAll(cache: map<nat, seq<seq<byte>>>, order: seq<nat>): seq<Write>
    requires forall k | k in order :: k in cache && AllRecoverable(cache[k])
  {
    if order == [] then []
    else UndoAll(cache, order[..|order| - 1]) + UndoWritesOf(cache[order[|order| - 1]])
  }

  // ---- The passes ----

  /** One step of the scan for the highest page. */
  lemma MaxPgnoStep(records: seq<seq<byte>>, i: nat)
    requires AllRecoverable(records) && i < |records|
    ensures AllRecoverable(records[..i]) && AllRecoverable(records[..i + 1])
    ensures MaxPgno(records[..i + 1]) ==
      if PgnoOf(records[i]) > MaxPgno(records[..i]) then PgnoOf(records[i]) else MaxPgno(records[..i])
  {
    assert records[..i + 1][..i] == records[..i];
    assert forall log | log in records[..i + 1] :: log in records;
  }

  /**
   * `recover`: the file is truncated to the highest page a record names (at least one page), then
   * the redo pass and the undo pass run over it. The result is the truncated file with the redo
   * writes and then the undo writes applied, every active xid that has records ends aborted, and no
   * other xid's status changes.
   */
  method Recover(tm: TM.TransactionManagerImpl, lg: Logger.LoggerImpl, file: seq<byte>)
    returns (f: seq<byte>, ghost order: seq<nat>)
    requires lg.Valid() && AllRecoverable(lg.Records())
    modifies tm, lg
    ensures SameLog(lg, old(lg.file), old(lg.fileSize), old(lg.xChecksum))
    ensures tm.xidCounter == old(tm.xidCounter)
    ensures var records := lg.Records(); var n := PageCache.PageOffset(RecoverPages(records) + 1);
      var cache := Collect(records, old(tm.file));
      && |f| == n && AllFit(RedoWrites(records, old(tm.file)), n)
      && |order| == |cache.Keys| && (forall k | k in order :: k in cache)
      && (forall j, k | 0 <= j < k < |order| :: order[j] != order[k])
      && (forall k | k in order :: AllRecoverable(cache[k]))
      && AllFit(UndoAll(cache, order), n)
      && f == Apply(Apply(SetLength(file, n), RedoWrites(records, old(tm.file))), UndoAll(cache, order))
    ensures forall log | log in lg.Records() && TM.Active(old(tm.file), XidOf(log)) :: tm.IsAborted(XidOf(log))
    ensures forall y: nat | y !in Collect(lg.Records(), old(tm.file)) :: tm.StatusAt(y) == old(tm.StatusAt(y))
  {
    lg.Rewind();
    ghost var records := lg.Records();
    ghost var i := 0;
    var maxPgno := 0;
    while true
      invariant SameLog(lg, old(lg.file), old(lg.fileSize), old(lg.xChecksum))
      invariant 0 <= i <= |records| && lg.Remaining() == records[i..]
      invariant AllRecoverable(records[..i]) && maxPgno == MaxPgno(records[..i])
      invariant unchanged(tm)
      decreases |records| - i
    {
      ghost var rest := lg.Remaining();
      var next := lg.Next();
      if next == None {
        break;
      }
      var log := next.value;
      ReadStep(records, i, rest, log, lg.Remaining());
      MaxPgnoStep(records, i);
      var pgno := PgnoOf(log);
      if pgno > maxPgno {
        maxPgno := pgno;
      }
      i := i + 1;
    }
    assert i == |records|;
    assert records[..i] == records;
    if maxPgno == 0 {
      maxPgno := 1;
    }
    assert maxPgno == RecoverPages(records);
    ghost var xf := tm.file;
    var truncated := SetLength(file, PageCache.PageOffset(maxPgno + 1));
    RedoWritesFit(records, xf);
    var redone := RedoTransactions(tm, lg, truncated);
    assert lg.Records() == records && tm.file == xf;
    f, order := UndoTransactions(tm, lg, redone);
    assert lg.Records() == records;
  }

  /** The logger is as it was, apart from its read position. */
  ghost predicate SameLog(lg: Logger.LoggerImpl, file: seq<byte>, fileSize: int, xChecksum: int)
    reads lg
  {
    lg.Valid() && lg.file == file && lg.fileSize == fileSize && lg.xChecksum == xChecksum
  }

  /** Reading one more record off `rest` moves the read prefix of `records` along by one. */
  lemma ReadStep(records: seq<seq<byte>>, i: nat, rest: seq<seq<byte>>, log: seq<byte>, rest': seq<seq<byte>>)
    requires i <= |records| && rest == records[i..] && rest == [log] + rest'
    ensures i < |records| && records[i] == log && rest' == records[i + 1..]
  {
    assert records[i..][1..] == records[i + 1..];
  }

  /** `redoTranscations`: every record of a non-active xid is replayed forward, in log order. */
  method RedoTransactions(tm: TM.TransactionManagerImpl, lg: Logger.LoggerImpl, file: seq<byte>)
    returns (f: seq<byte>)
    requires lg.Valid() && AllRecoverable(lg.Records()) && AllFit(RedoWrites(lg.Records(), tm.file), |file|)
    modifies lg
    ensures SameLog(lg, old(lg.file), old(lg.fileSize), old(lg.xChecksum))
    ensures f == Apply(file, RedoWrites(lg.Records(), tm.file))
  {
    ghost var xf := tm.file;
    lg.Rewind();
    ghost var records := lg.Records();
    ghost var i := 0;
    f := file;
    while true
      invariant SameLog(lg, old(lg.file), old(lg.fileSize), old(lg.xChecksum))
      invariant 0 <= i <= |records| && lg.Remaining() == records[i..]
      invariant AllFit(RedoWrites(records[..i], xf), |file|)
      invariant f == Apply(file, RedoWrites(records[..i], xf))
      decreases |records| - i
    {
      ghost var rest := lg.Remaining();
      var next := lg.Next();
      if next == None {
        break;
      }
      var log := next.value;
      ReadStep(records, i, rest, log, lg.Remaining());
      RedoAdvance(records, i, xf, file, f);
      if !tm.IsActive(XidOf(log)) {
        f := ApplyWrite(f, LogWrite(log, REDO));
      }
      i := i + 1;
    }
    assert i == |records|;
    assert records[..i] == records;
  }

  /** The redo scan's invariant carries over one more record. */
  lemma RedoAdvance(records: seq<seq<byte>>, i: nat, xidFile: seq<byte>, file: seq<byte>, f: seq<byte>)
    requires AllRecoverable(records) && i < |records| && AllFit(RedoWrites(records, xidFile), |file|)
    requires AllFit(RedoWrites(records[..i], xidFile), |file|) && f == Apply(file, RedoWrites(records[..i], xidFile))
    ensures AllFit(RedoWrites(records[..i + 1], xidFile), |file|)
    ensures !TM.Active(xidFile, XidOf(records[i])) ==> Fits(LogWrite(records[i], REDO), |f|)
    ensures Apply(file, RedoWrites(records[..i + 1], xidFile)) ==
      if TM.Active(xidFile, XidOf(records[i])) then f else ApplyWrite(f, LogWrite(records[i], REDO))
  {
    RedoStep(records, i, xidFile, |file|);
    if !TM.Active(xidFile, XidOf(records[i])) {
      ApplySnoc(file, RedoWrites(records[..i], xidFile), LogWrite(records[i], REDO));
    }
  }

  /** One step of the redo scan. */
  lemma RedoStep(records: seq<seq<byte>>, i: nat, xidFile: seq<byte>, n: int)
    requires AllRecoverable(records) && i < |records|
    requires AllFit(RedoWrites(records, xidFile), n) && AllFit(RedoWrites(records[..i], xidFile), n)
    ensures AllFit(RedoWrites(records[..i + 1], xidFile), n)
    ensures TM.Active(xidFile, XidOf(records[i])) ==>
      RedoWrites(records[..i + 1], xidFile) == RedoWrites(records[..i], xidFile)
    ensures !TM.Active(xidFile, XidOf(records[i])) ==>
      && RedoWrites(records[..i + 1], xidFile) == RedoWrites(records[..i], xidFile) + [LogWrite(records[i], REDO)]
      && Fits(LogWrite(records[i], REDO), n)
  {
    var q := records[..i + 1];
    assert q[..i] == records[..i];
    assert AllRecoverable(records[..i]) && AllRecoverable(q);
    var p := Inactive(records[..i], xidFile);
    if !TM.Active(xidFile, XidOf(records[i])) {
      assert (p + [records[i]])[..|p|] == p;
      InactiveComplete(records, xidFile);
      WritesOfMember(Inactive(records, xidFile), records[i], REDO);
    }
  }

  /** The write of a listed record is among the listed writes. */
  lemma {:induction false} WritesOfMember(logs: seq<seq<byte>>, log: seq<byte>, flag: Flag)
    requires AllRecoverable(logs) && log in logs
    ensures LogWrite(log, flag) in WritesOf(logs, flag)
  {
    if log != logs[|logs| - 1] {
      WritesOfMember(logs[..|logs| - 1], log, flag);
    }
  }
  /** One step of the scan that fills `logCache`. */
  lemma CollectStep(records: seq<seq<byte>>, i: nat, xidFile: seq<byte>)
    requires AllRecoverable(records) && i < |records|
    ensures AllRecoverable(records[..i]) && AllRecoverable(records[..i + 1])
    ensures var m := Collect(records[..i], xidFile); var x := XidOf(records[i]);
      Collect(records[..i + 1], xidFile) ==
        if !TM.Active(xidFile, x) then m else m[x := (if x in m then m[x] else []) + [records[i]]]
  {
    assert records[..i + 1][..i] == records[..i];
    assert forall log | log in records[..i + 1] :: log in records;
  }

  /** The undo writes of one xid's records from index `i` on, newest first. */
  lemma UndoWritesStep(logs: seq<seq<byte>>, i: nat)
    requires AllRecoverable(logs) && 0 < i <= |logs|
    ensures AllRecoverable(logs[i..]) && AllRecoverable(logs[i - 1..])
    ensures UndoWritesOf(logs[i - 1..]) == UndoWritesOf(logs[i..]) + [LogWrite(logs[i - 1], UNDO)]
  {
    assert logs[i - 1..][1..] == logs[i..];
    assert forall log | log in logs[i - 1..] :: log in logs;
  }

  /** Every undo write of the cached records fits the truncated file. */
  lemma UndoWritesFit(records: seq<seq<byte>>, xidFile: seq<byte>, logs: seq<seq<byte>>, n: int)
    requires AllRecoverable(records) && n == PageCache.PageOffset(RecoverPages(records) + 1)
    requires forall log | log in logs :: log in records
    ensures AllRecoverable(logs) && AllFit(UndoWritesOf(logs), n)
    decreases |logs|
  {
    if logs != [] {
      WritesFitTruncated(records, UNDO);
      assert logs[0] in records;
      assert forall log | log in logs[1..] :: log in logs;
      UndoWritesFit(records, xidFile, logs[1..], n);
    }
  }

  /** The first loop of `undoTranscations`: `logCache`, the records of each active xid. */
  method CollectActive(tm: TM.TransactionManagerImpl, lg: Logger.LoggerImpl)
    returns (logCache: map<nat, seq<seq<byte>>>)
    requires lg.Valid() && AllRecoverable(lg.Records())
    modifies lg
    ensures SameLog(lg, old(lg.file), old(lg.fileSize), old(lg.xChecksum))
    ensures logCache == Collect(lg.Records(), tm.file)
  {
    lg.Rewind();
    ghost var records := lg.Records();
    ghost var i := 0;
    logCache := map[];
    while true
      invariant SameLog(lg, old(lg.file), old(lg.fileSize), old(lg.xChecksum))
      invariant 0 <= i <= |records| && lg.Remaining() == records[i..]
      invariant logCache == Collect(records[..i], tm.file)
      decreases |records| - i
    {
      ghost var rest := lg.Remaining();
      var next := lg.Next();
      if next == None {
        break;
      }
      var log := next.value;
      ReadStep(records, i, rest, log, lg.Remaining());
      CollectStep(records, i, tm.file);
      var xid := XidOf(log);
      if tm.IsActive(xid) {
        var group := if xid in logCache then logCache[xid] else [];
        logCache := logCache[xid := group + [log]];
      }
      i := i + 1;
    }
    assert i == |records|;
    assert records[..i] == records;
  }

  /** The inner loop of `undoTranscations`: one xid's records undone from the newest back. */
  method UndoLogs(logs: seq<seq<byte>>, file: seq<byte>) returns (f: seq<byte>)
    requires AllRecoverable(logs) && AllFit(UndoWritesOf(logs), |file|)
    ensures f == Apply(file, UndoWritesOf(logs))
  {
    f := file;
    var j := |logs|;
    assert logs[j..] == [];
    while j > 0
      invariant 0 <= j <= |logs|
      invariant AllRecoverable(logs[j..]) && AllFit(UndoWritesOf(logs[j..]), |file|)
      invariant f == Apply(file, UndoWritesOf(logs[j..]))
    {
      UndoWritesStep(logs, j);
      j := j - 1;
      UndoWritesSuffix(logs, j);
      ApplySnoc(file, UndoWritesOf(logs[j + 1..]), LogWrite(logs[j], UNDO));
      f := ApplyWrite(f, LogWrite(logs[j], UNDO));
    }
    assert logs[0..] == logs;
  }

  /** The undo writes of a suffix are among the undo writes of the whole. */
  lemma {:induction false} UndoWritesSuffix(logs: seq<seq<byte>>, j: nat)
    requires AllRecoverable(logs) && j <= |logs|
    ensures AllRecoverable(logs[j..])
    ensures forall w | w in UndoWritesOf(logs[j..]) :: w in UndoWritesOf(logs)
    decreases j
  {
    assert forall log | log in logs[j..] :: log in logs;
    if j > 0 {
      UndoWritesSuffix(logs, j - 1);
      UndoWritesStep(logs, j);
    } else {
      assert logs[j..] == logs;
    }
  }

  /**
   * `undoTranscations`: the records of active xids are gathered per xid, then, xid by xid in the
   * cache's iteration order `order`, undone newest first, after which the xid is marked aborted.
   */
  method UndoTransactions(tm: TM.TransactionManagerImpl, lg: Logger.LoggerImpl, file: seq<byte>)
    returns (f: seq<byte>, ghost order: seq<nat>)
    requires lg.Valid() && AllRecoverable(lg.Records())
    requires |file| == PageCache.PageOffset(RecoverPages(lg.Records()) + 1)
    modifies tm, lg
    ensures SameLog(lg, old(lg.file), old(lg.fileSize), old(lg.xChecksum))
    ensures tm.xidCounter == old(tm.xidCounter)
    ensures var records := lg.Records(); var cache := Collect(records, old(tm.file));
      && |order| == |cache.Keys| && (forall k | k in order :: k in cache)
      && (forall j, k | 0 <= j < k < |order| :: order[j] != order[k])
      && (forall k | k in order :: AllRecoverable(cache[k]))
      && AllFit(UndoAll(cache, order), |file|)
      && f == Apply(file, UndoAll(cache, order))
    ensures forall log | log in lg.Records() && TM.Active(old(tm.file), XidOf(log)) :: tm.IsAborted(XidOf(log))
    ensures forall y: nat | y !in Collect(lg.Records(), old(tm.file)) :: tm.StatusAt(y) == old(tm.StatusAt(y))
  {
    ghost var xf := tm.file;
    var logCache := CollectActive(tm, lg);
    ghost var records := lg.Records();
    CollectGroups(records, xf);
    CacheFits(records, xf, |file|);
    f, order := UndoCached(tm, logCache, file);
  }

  /**
   * The second loop of `undoTranscations`: each cached xid in turn, in the cache's iteration order
   * `order`, has its records undone newest first and is then marked aborted.
   */
  method UndoCached(tm: TM.TransactionManagerImpl, logCache: map<nat, seq<seq<byte>>>, file: seq<byte>)
    returns (f: seq<byte>, ghost order: seq<nat>)
    requires CacheFit(logCache, tm.file, |file|)
    modifies tm
    ensures tm.xidCounter == old(tm.xidCounter)
    ensures |order| == |logCache.Keys| && (forall k | k in order :: k in logCache)
    ensures forall j, k | 0 <= j < k < |order| :: order[j] != order[k]
    ensures forall k | k in order :: AllRecoverable(logCache[k])
    ensures AllFit(UndoAll(logCache, order), |file|) && f == Apply(file, UndoAll(logCache, order))
    ensures forall k | k in logCache :: tm.IsAborted(k)
    ensures forall y: nat | y !in logCache :: tm.StatusAt(y) == old(tm.StatusAt(y))
  {
    f := file;
    order := [];
    var keys := logCache.Keys;
    while keys != {}
      invariant Visiting(logCache, keys, order)
      invariant AllFit(UndoAll(logCache, order), |file|) && f == Apply(file, UndoAll(logCache, order))
      invariant tm.xidCounter == old(tm.xidCounter)
      invariant Marked(old(tm.file), tm.file, order)
      decreases |keys|
    {
      ghost var some := NonEmptySetHasMember(keys);
      var k :| k in keys;
      f := UndoLogs(logCache[k], f);
      UndoAllStep(logCache, order, k, file);
      VisitStep(logCache, keys, order, k);
      MarkStep(old(tm.file), tm.file, order, k);
      tm.Abort(k);
      order := order + [k];
      keys := keys - {k};
    }
  }

  /** Every cached xid is a real, active xid whose records are recoverable and fit the file. */
  ghost predicate CacheFit(cache: map<nat, seq<seq<byte>>>, xidFile: seq<byte>, n: int)
  {
    forall k | k in cache :: k >= 1 && TM.Active(xidFile, k) && AllRecoverable(cache[k]) && AllFit(UndoWritesOf(cache[k]), n)
  }

  /** The cache the scan builds fits the file truncated for recovery. */
  lemma CacheFits(records: seq<seq<byte>>, xidFile: seq<byte>, n: int)
    requires AllRecoverable(records) && n == PageCache.PageOffset(RecoverPages(records) + 1)
    ensures CacheFit(Collect(records, xidFile), xidFile, n)
  {
    var cache := Collect(records, xidFile);
    CollectGroups(records, xidFile);
    forall k | k in cache
      ensures AllRecoverable(cache[k]) && AllFit(UndoWritesOf(cache[k]), n)
    {
      UndoWritesFit(records, xidFile, cache[k], n);
    }
  }

  /**
   * The keys still to visit and the ones visited so far split the cache's keys, and no key is
   * visited twice.
   */
  ghost predicate Visiting(cache: map<nat, seq<seq<byte>>>, keys: set<nat>, order: seq<nat>)
  {
    && keys <= cache.Keys && |order| + |keys| == |cache.Keys|
    && (forall k | k in order :: k in cache && k !in keys)
    && (forall k | k in cache :: k in keys || k in order)
    && (forall j, k | 0 <= j < k < |order| :: order[j] != order[k])
  }

  /** Every visited xid is aborted in `after`; every other xid has the status it had in `before`. */
  ghost predicate Marked(before: seq<byte>, after: seq<byte>, done: seq<nat>)
  {
    && (forall k | k in done :: TM.Aborted(after, k))
    && (forall y: nat | y !in done :: ByteAt(after, TM.XidPosition(y)) == ByteAt(before, TM.XidPosition(y)))
  }

  lemma MarkStep(before: seq<byte>, mid: seq<byte>, done: seq<nat>, k: nat)
    requires Marked(before, mid, done) && k >= 1
    ensures Marked(before, TM.Updated(mid, k, TM.FIELD_TRAN_ABORTED), done + [k])
  {
  }

  lemma VisitStep(cache: map<nat, seq<seq<byte>>>, keys: set<nat>, order: seq<nat>, k: nat)
    requires Visiting(cache, keys, order) && k in keys
    ensures Visiting(cache, keys - {k}, order + [k])
  {
  }

  lemma UndoAllSnoc(cache: map<nat, seq<seq<byte>>>, order: seq<nat>, k: nat)
    requires forall x | x in order :: x in cache && AllRecoverable(cache[x])
    requires k in cache && AllRecoverable(cache[k])
    ensures forall x | x in order + [k] :: x in cache && AllRecoverable(cache[x])
    ensures UndoAll(cache, order + [k]) == UndoAll(cache, order) + UndoWritesOf(cache[k])
  {
    assert (order + [k])[..|order|] == order;
  }

  lemma FitConcat(a: seq<Write>, b: seq<Write>, n: int)
    requires AllFit(a, n) && AllFit(b, n)
    ensures AllFit(a + b, n)
  {
  }

  /** Undoing one more xid appends its undo writes. */
  lemma UndoAllStep(cache: map<nat, seq<seq<byte>>>, order: seq<nat>, k: nat, file: seq<byte>)
    requires forall x | x in order :: x in cache && AllRecoverable(cache[x])
    requires k in cache && AllRecoverable(cache[k])
    requires AllFit(UndoAll(cache, order), |file|) && AllFit(UndoWritesOf(cache[k]), |file|)
    ensures forall x | x in order + [k] :: x in cache && AllRecoverable(cache[x])
    ensures AllFit(UndoAll(cache, order + [k]), |file|)
    ensures Apply(file, UndoAll(cache, order + [k])) == Apply(Apply(file, UndoAll(cache, order)), UndoWritesOf(cache[k]))
  {
    UndoAllSnoc(cache, order, k);
    FitConcat(UndoAll(cache, order), UndoWritesOf(cache[k]), |file|);
    ApplyConcat(file, UndoAll(cache, order), UndoWritesOf(cache[k]));
  }
}
