/**
 * `VersionManager`: multi-version concurrency control over the transaction manager, the lock table and
 * the data manager. Transactions are registered in `activeTransaction` from `begin` until `commit` or a
 * manual `abort`. An entry is read or deleted only when it is visible to the caller; a delete locks the
 * entry's uid in the lock table and turns a deadlock or a version skip into an automatic abort.
 *
 * The entry cache the source inherits is left out: `read` and `delete` take the entry the cache would
 * hand out, `None` standing for the NullEntry case. A delete that must wait for its lock stops with
 * `MustWait`; `ResumeDelete` is the rest of `delete`, run once the lock table has woken the caller.
 */
module VersionManager {
  import opened Wrappers
  import opened Bytes
  import opened Transaction
  import TM = TransactionManager
  import LT = LockTable
  import Visibility
  import Entry
  import DataItem
  import DM = DataManager
  import Pages

  /** How a delete ends: with its boolean result, or waiting for the lock on the entry's uid. */
  datatype DeleteStep = Deleted(done: bool) | MustWait

  /** An entry the version manager may read or delete: well formed, with xids that are not negative. */
  ghost predicate Readable(e: Entry.Entry)
    reads e, e.dataItem, e.dataItem.raw
  {
    e.Valid() && Entry.XminOf(e.Raw()) >= 0 && Entry.XmaxOf(e.Raw()) >= 0
  }

  class VersionManagerImpl {
    const tm: TM.TransactionManagerImpl
    const dm: DM.DataManagerImpl
    const lt: LT.LockTable
    var activeTransaction: map<nat, Transaction>

    /** Every registered transaction is filed under its own xid, has begun, and has a consistent snapshot. */
    ghost predicate Valid()
      reads this, tm, lt
    {
      && tm.Valid() && lt.Valid()
      && forall x | x in activeTransaction ::
           activeTransaction[x].xid == x && activeTransaction[x].Valid() && x <= tm.xidCounter
    }

    /** The super transaction is registered from the start, at read committed. */
    constructor (tm: TM.TransactionManagerImpl, dm: DM.DataManagerImpl)
      requires tm.Valid()
      ensures Valid() && this.tm == tm && this.dm == dm && fresh(lt)
      ensures activeTransaction.Keys == {TM.SUPER_XID}
      ensures var t := activeTransaction[TM.SUPER_XID]; t.level == 0 && t.snapshot == None && t.err == None
      ensures lt.Contents() == LT.Tables(map[], map[], map[], {}, map[])
    {
      this.tm := tm;
      this.dm := dm;
      var super := NewTransaction(TM.SUPER_XID, 0, {});
      activeTransaction := map[TM.SUPER_XID := super];
      lt := new LT.LockTable();
    }

    /**
     * `begin`: the xid `tm.begin` hands out, registered with a snapshot, at a level other than 0, of
     * the xids registered before it.
     */
    method Begin(level: int) returns (xid: nat)
      requires Valid() && IsLong(tm.xidCounter + 1)
      modifies this, tm
      ensures Valid() && xid == old(tm.xidCounter) + 1 && xid !in old(activeTransaction)
      ensures tm.file == TM.Began(old(tm.file), old(tm.xidCounter)) && tm.IsActive(xid)
      ensures xid in activeTransaction && activeTransaction == old(activeTransaction)[xid := activeTransaction[xid]]
      ensures var t := activeTransaction[xid];
        && fresh(t) && t.xid == xid && t.level == level && t.err == None && !t.autoAborted
        && t.snapshot == if level != 0 then Some(old(activeTransaction).Keys) else None
    {
      xid := tm.Begin();
      var t := NewTransaction(xid, level, activeTransaction.Keys);
      activeTransaction := activeTransaction[xid := t];
    }

    /** `read`: the transaction's error if it has one, otherwise the entry's data iff it is visible. */
    method Read(xid: nat, entry: Option<Entry.Entry>) returns (r: Result<Option<seq<byte>>>)
      requires Valid() && xid in activeTransaction
      requires entry.Some? ==> Readable(entry.value)
      ensures var t := activeTransaction[xid];
        && (t.err.Some? ==> r == Err(t.err.value))
        && (t.err.None? && entry.None? ==> r == Ok(None))
        && (t.err.None? && entry.Some? ==>
             var e := entry.value.Raw();
             r == if Visibility.IsVisible(tm.file, t, Entry.XminOf(e), Entry.XmaxOf(e))
                  then Ok(Some(Entry.DataOf(e))) else Ok(None))
    {
      var t := activeTransaction[xid];
      if t.err.Some? {
        return Err(t.err.value);
      }
      if entry.None? {
        return Ok(None);
      }
      var e := entry.value;
      var xmin := e.GetXmin();
      var xmax := e.GetXmax();
      if Visibility.IsVisible(tm.file, t, xmin, xmax) {
        var d := e.Data();
        return Ok(Some(d[..]));
      }
      return Ok(None);
    }

    /**
     * `insert`: the transaction's error if it has one, otherwise the data wrapped as an entry created by
     * xid goes to the data manager, whose uid is returned; the item stored under it is that entry.
     */
    method Insert(xid: nat, data: seq<byte>, cacheFull: bool) returns (r: Result<int>)
      requires Valid() && xid in activeTransaction && xid < TWO_63
      requires dm.Valid() && |dm.pages| + 1 < TWO_31
      modifies dm, dm.pIndex.lists, dm.logger
      ensures dm.Valid()
      ensures activeTransaction[xid].err.Some? ==>
        r == Err(activeTransaction[xid].err.value) && dm.pages == old(dm.pages)
      ensures activeTransaction[xid].err.None? ==>
        && (r == Err(DataTooLarge) <==> |DataItem.WrapDataItemRaw(Entry.WrapEntryRaw(xid, data))| > Pages.MAX_FREE_SPACE)
        && (r.Ok? ==> DM.ItemReadable(dm.pages, r.value)
                      && DM.ItemAt(dm.pages, r.value) == Some(DataItem.WrapDataItemRaw(Entry.WrapEntryRaw(xid, data))))
      ensures activeTransaction[xid].err.None? && |DataItem.WrapDataItemRaw(Entry.WrapEntryRaw(xid, data))| <= Pages.MAX_FREE_SPACE ==>
        (r.Ok? <==> !cacheFull) && (cacheFull ==> r == Err(CacheFull))
    {
      var t := activeTransaction[xid];
      if t.err.Some? {
        return Err(t.err.value);
      }
      var raw := Entry.WrapEntryRaw(xid, data);
      ghost var pgno, offset, grown, added;
      r, pgno, offset, grown, added := dm.Insert(xid, raw, cacheFull);
      if r.Ok? {
        DM.StoredReadsBack(grown, dm.pages, pgno, offset, raw);
      }
    }

    /**
     * `delete`, up to the lock: the transaction's error if it has one; false for a missing or invisible
     * entry; then the entry's uid is locked. A deadlock auto-aborts the transaction and surfaces as a
     * ConcurrentUpdate error; a lock that must be waited for stops the delete; otherwise it goes on
     * as `ResumeDelete`.
     */
    method Delete(xid: nat, entry: Option<Entry.Entry>) returns (r: Result<DeleteStep>)
      requires Valid() && xid in activeTransaction && xid >= 1 && xid !in lt.waitU
      requires entry.Some? ==> Readable(entry.value)
      requires entry.Some? ==> 2 * (entry.value.dataItem.end - entry.value.dataItem.start) < TWO_31 - 64
      requires dm.logger.Valid()
      modifies this, lt, tm, activeTransaction[xid], dm.logger
      modifies if entry.Some? then {entry.value.dataItem.pg, entry.value.dataItem.oldRaw, entry.value.dataItem.raw} else {}
      ensures Valid() && activeTransaction == old(activeTransaction)
      ensures var t := activeTransaction[xid];
        && (old(t.err).Some? ==> r == Err(old(t.err).value) && unchanged(t, lt, tm))
        && (old(t.err).None? && entry.None? ==> r == Ok(Deleted(false)) && unchanged(t, lt, tm))
        && (old(t.err).None? && entry.Some? ==>
             var raw := old(entry.value.Raw());
             var (locked, added) := LT.AddOutcome(old(lt.Contents()), xid, entry.value.uid);
             && r == DeleteOutcome(old(tm.file), t, raw, added)
             && (r == Ok(Deleted(true)) ==>
                   && lt.Contents() == locked && entry.value.Raw() == Entry.WithXmax(raw, xid)
                   && unchanged(t, tm))
             && (r == Ok(Deleted(false)) ==>
                   && entry.value.Raw() == raw && unchanged(t, tm)
                   && lt.Contents() == if Visibility.IsVisible(old(tm.file), t, Entry.XminOf(raw), Entry.XmaxOf(raw))
                                       then locked else old(lt.Contents()))
             && (r == Ok(MustWait) ==> lt.Contents() == locked && entry.value.Raw() == raw && unchanged(t, tm))
             && (r.Err? ==>
                   && t.err == Some(ConcurrentUpdate) && t.autoAborted && entry.value.Raw() == raw
                   && (!old(t.autoAborted) ==>
                         && lt.Contents() == LT.Removed(if added.Err? then old(lt.Contents()) else locked, xid)
                         && tm.file == TM.Updated(old(tm.file), xid, TM.FIELD_TRAN_ABORTED))))
    {
      var t := activeTransaction[xid];
      if t.err.Some? {
        return Err(t.err.value);
      }
      if entry.None? {
        return Ok(Deleted(false));
      }
      r := DeleteVisible(xid, entry.value);
    }

    /** The part of `delete` once the entry is there: visibility, then the lock. */
    method DeleteVisible(xid: nat, e: Entry.Entry) returns (r: Result<DeleteStep>)
      requires Valid() && xid in activeTransaction && xid >= 1 && xid !in lt.waitU
      requires Readable(e) && 2 * (e.dataItem.end - e.dataItem.start) < TWO_31 - 64 && dm.logger.Valid()
      requires activeTransaction[xid].err.None?
      modifies this, lt, tm, activeTransaction[xid], dm.logger, e.dataItem.pg, e.dataItem.oldRaw, e.dataItem.raw
      ensures Valid() && activeTransaction == old(activeTransaction)
      ensures var t := activeTransaction[xid]; var raw := old(e.Raw());
        var (locked, added) := LT.AddOutcome(old(lt.Contents()), xid, e.uid);
        && r == DeleteOutcome(old(tm.file), t, raw, added)
        && (!Visibility.IsVisible(old(tm.file), t, Entry.XminOf(raw), Entry.XmaxOf(raw)) ==>
             unchanged(t, lt, tm) && e.Raw() == raw)
        && (r == Ok(Deleted(true)) ==>
             lt.Contents() == locked && e.Raw() == Entry.WithXmax(raw, xid) && unchanged(t, tm))
        && (r == Ok(Deleted(false)) ==>
             && e.Raw() == raw && unchanged(t, tm)
             && lt.Contents() == if Visibility.IsVisible(old(tm.file), t, Entry.XminOf(raw), Entry.XmaxOf(raw))
                                 then locked else old(lt.Contents()))
        && (r == Ok(MustWait) ==> lt.Contents() == locked && e.Raw() == raw && unchanged(t, tm))
        && (r.Err? ==>
             && t.err == Some(ConcurrentUpdate) && t.autoAborted && e.Raw() == raw
             && (!old(t.autoAborted) ==>
                   && lt.Contents() == LT.Removed(if added.Err? then old(lt.Contents()) else locked, xid)
                   && tm.file == TM.Updated(old(tm.file), xid, TM.FIELD_TRAN_ABORTED)))
    {
      var t := activeTransaction[xid];
      var xmin := e.GetXmin();
      var xmax := e.GetXmax();
      if !Visibility.IsVisible(tm.file, t, xmin, xmax) {
        return Ok(Deleted(false));
      }
      r := LockAndDelete(xid, e);
    }

    /** `delete` of a visible entry: lock its uid, then go on unless the lock table says otherwise. */
    method LockAndDelete(xid: nat, e: Entry.Entry) returns (r: Result<DeleteStep>)
      requires Valid() && xid in activeTransaction && xid >= 1 && xid !in lt.waitU
      requires Readable(e) && 2 * (e.dataItem.end - e.dataItem.start) < TWO_31 - 64 && dm.logger.Valid()
      requires var raw := e.Raw(); var t := activeTransaction[xid];
        t.err.None? && Visibility.IsVisible(tm.file, t, Entry.XminOf(raw), Entry.XmaxOf(raw))
      modifies this, lt, tm, activeTransaction[xid], dm.logger, e.dataItem.pg, e.dataItem.oldRaw, e.dataItem.raw
      ensures Valid() && activeTransaction == old(activeTransaction)
      ensures var t := activeTransaction[xid]; var raw := old(e.Raw());
        var (locked, added) := LT.AddOutcome(old(lt.Contents()), xid, e.uid);
        && r == DeleteOutcome(old(tm.file), t, raw, added)
        && (added.Err? ==>
             && t.err == Some(ConcurrentUpdate) && t.autoAborted && e.Raw() == raw
             && (!old(t.autoAborted) ==> lt.Contents() == LT.Removed(old(lt.Contents()), xid)
                                         && tm.file == TM.Updated(old(tm.file), xid, TM.FIELD_TRAN_ABORTED)))
        && (added == Ok(true) ==> lt.Contents() == locked && unchanged(t, tm) && e.Raw() == raw)
        && (added == Ok(false) ==>
             && (r == Ok(Deleted(true)) ==>
                   lt.Contents() == locked && e.Raw() == Entry.WithXmax(raw, xid) && unchanged(t, tm))
             && (r == Ok(Deleted(false)) ==> lt.Contents() == locked && e.Raw() == raw && unchanged(t, tm))
             && (r.Err? ==>
                   && t.err == Some(ConcurrentUpdate) && t.autoAborted && e.Raw() == raw
                   && (!old(t.autoAborted) ==> lt.Contents() == LT.Removed(locked, xid)
                                               && tm.file == TM.Updated(old(tm.file), xid, TM.FIELD_TRAN_ABORTED))))
    {
      var l := lt.Add(xid, e.uid);
      if l.Err? {
        LT.AddDeadlockRestores(old(lt.Contents()), xid, e.uid);
        AutoAbort(xid);
        return Err(ConcurrentUpdate);
      }
      if l.value {
        return Ok(MustWait);
      }
      var done := ResumeDelete(xid, e);
      r := if done.Ok? then Ok(Deleted(done.value)) else Err(done.error);
    }

    /**
     * The rest of `delete`, holding the lock: false if xid already deleted the entry; a version skip
     * auto-aborts the transaction and surfaces as ConcurrentUpdate; otherwise xmax becomes xid.
     */
    method ResumeDelete(xid: nat, e: Entry.Entry) returns (r: Result<bool>)
      requires Valid() && xid in activeTransaction && xid >= 1
      requires Readable(e) && 2 * (e.dataItem.end - e.dataItem.start) < TWO_31 - 64 && dm.logger.Valid()
      modifies this, lt, tm, activeTransaction[xid], dm.logger, e.dataItem.pg, e.dataItem.oldRaw, e.dataItem.raw
      ensures Valid() && activeTransaction == old(activeTransaction)
      ensures var t := activeTransaction[xid]; var raw := old(e.Raw());
        && r == Resumed(old(tm.file), t, raw)
        && (r == Ok(false) ==> unchanged(t, lt, tm) && e.Raw() == raw)
        && (r.Err? ==>
             && t.err == Some(ConcurrentUpdate) && t.autoAborted && e.Raw() == raw
             && (!old(t.autoAborted) ==> lt.Contents() == LT.Removed(old(lt.Contents()), xid)
                                         && tm.file == TM.Updated(old(tm.file), xid, TM.FIELD_TRAN_ABORTED)))
        && (r == Ok(true) ==> e.Raw() == Entry.WithXmax(raw, xid) && unchanged(t, lt, tm))
    {
      var t := activeTransaction[xid];
      var xmax := e.GetXmax();
      if xmax == xid {
        return Ok(false);
      }
      if Visibility.IsVersionSkip(tm.file, t, xmax) {
        AutoAbort(xid);
        return Err(ConcurrentUpdate);
      }
      e.SetXmax(xid, dm.logger);
      return Ok(true);
    }

    /**
     * The automatic abort of `delete`: the error is set to ConcurrentUpdate, the transaction is aborted
     * without being deregistered, and then marked as aborted automatically.
     */
    method AutoAbort(xid: nat)
      requires Valid() && xid in activeTransaction && xid >= 1
      modifies this, lt, tm, activeTransaction[xid]
      ensures Valid() && activeTransaction == old(activeTransaction)
      ensures var t := activeTransaction[xid]; t.err == Some(ConcurrentUpdate) && t.autoAborted
      ensures old(activeTransaction[xid].autoAborted) ==> unchanged(lt, tm)
      ensures !old(activeTransaction[xid].autoAborted) ==>
        && lt.Contents() == LT.Removed(old(lt.Contents()), xid)
        && tm.file == TM.Updated(old(tm.file), xid, TM.FIELD_TRAN_ABORTED) && tm.IsAborted(xid)
    {
      var t := activeTransaction[xid];
      t.err := Some(ConcurrentUpdate);
      InternAbort(xid, true);
      t.autoAborted := true;
    }

    /**
     * `commit`: a transaction with an error stays registered and gets its error back; any other one is
     * deregistered, its locks are released, and it is committed in the XID file.
     */
    method Commit(xid: nat) returns (err: Option<Error>)
      requires Valid() && xid in activeTransaction && xid >= 1
      modifies this, lt, tm
      ensures Valid()
      ensures var t := old(activeTransaction[xid]);
        && (t.err.Some? ==> err == t.err && activeTransaction == old(activeTransaction) && unchanged(lt, tm))
        && (t.err.None? ==>
             && err == None && activeTransaction == old(activeTransaction) - {xid}
             && lt.Contents() == LT.Removed(old(lt.Contents()), xid)
             && tm.file == TM.Updated(old(tm.file), xid, TM.FIELD_TRAN_COMMITTED) && tm.IsCommitted(xid))
    {
      var t := activeTransaction[xid];
      if t.err.Some? {
        return t.err;
      }
      activeTransaction := activeTransaction - {xid};
      lt.Remove(xid);
      tm.Commit(xid);
      return None;
    }

    /** `abort`: a manual abort, which deregisters the transaction. */
    method Abort(xid: nat)
      requires Valid() && xid in activeTransaction && xid >= 1
      modifies this, lt, tm
      ensures Valid() && activeTransaction == old(activeTransaction) - {xid}
      ensures old(activeTransaction[xid].autoAborted) ==> unchanged(lt, tm)
      ensures !old(activeTransaction[xid].autoAborted) ==>
        && lt.Contents() == LT.Removed(old(lt.Contents()), xid)
        && tm.file == TM.Updated(old(tm.file), xid, TM.FIELD_TRAN_ABORTED) && tm.IsAborted(xid)
    {
      InternAbort(xid, false);
    }

    /**
     * `internAbort`: only a manual abort deregisters; the locks are released and the xid is marked
     * aborted unless the transaction was aborted automatically before.
     */
    method InternAbort(xid: nat, autoAborted: bool)
      requires Valid() && xid in activeTransaction && xid >= 1
      modifies this, lt, tm
      ensures Valid()
      ensures activeTransaction == if autoAborted then old(activeTransaction) else old(activeTransaction) - {xid}
      ensures old(activeTransaction[xid].autoAborted) ==> unchanged(lt, tm)
      ensures !old(activeTransaction[xid].autoAborted) ==>
        && lt.Contents() == LT.Removed(old(lt.Contents()), xid)
        && tm.file == TM.Updated(old(tm.file), xid, TM.FIELD_TRAN_ABORTED) && tm.IsAborted(xid)
    {
      var t := activeTransaction[xid];
      if !autoAborted {
        activeTransaction := activeTransaction - {xid};
      }
      if t.autoAborted {
        return;
      }
      lt.Remove(xid);
      tm.Abort(xid);
    }
  }

  /**
   * What `delete` returns once it holds the lock on the entry `e`: false when the caller already
   * deleted it, ConcurrentUpdate on a version skip, and true when xmax is set.
   */
  function Resumed(file: seq<byte>, t: Transaction, e: seq<byte>): (r: Result<bool>)
    requires t.Valid() && |e| >= Entry.OF_DATA && Entry.XmaxOf(e) >= 0
    ensures r == Ok(false) <==> Entry.XmaxOf(e) == t.xid
    ensures r.Err? ==> r.error == ConcurrentUpdate
  {
    var xmax := Entry.XmaxOf(e);
    if xmax == t.xid then Ok(false)
    else if Visibility.IsVersionSkip(file, t, xmax) then Err(ConcurrentUpdate)
    else Ok(true)
  }

  /**
   * What `delete` returns for an entry `e` it found, given what the lock table answered: false for an
   * invisible entry, ConcurrentUpdate on a deadlock, a wait, or the outcome once the lock is held.
   */
  function DeleteOutcome(file: seq<byte>, t: Transaction, e: seq<byte>, added: Result<bool>): (r: Result<DeleteStep>)
    requires t.Valid() && |e| >= Entry.OF_DATA && Entry.XminOf(e) >= 0 && Entry.XmaxOf(e) >= 0
  {
    if !Visibility.IsVisible(file, t, Entry.XminOf(e), Entry.XmaxOf(e)) then Ok(Deleted(false))
    else if added.Err? then Err(ConcurrentUpdate)
    else if added.value then Ok(MustWait)
    else match Resumed(file, t, e)
      case Ok(done) => Ok(Deleted(done))
      case Err(err) => Err(err)
  }

  /**
   * A delete that goes through, `delete` returning true, deletes a version the caller could see, was
   * not deleted by it already and whose deletion is no version skip; afterwards the caller no longer
   * sees it, while its creator and its data are as they were.
   */
  lemma DeletedWasVisible(file: seq<byte>, t: Transaction, e: seq<byte>, added: Result<bool>)
    requires t.Valid() && t.xid >= 1 && IsLong(t.xid)
    requires |e| >= Entry.OF_DATA && Entry.XminOf(e) >= 0 && Entry.XmaxOf(e) >= 0
    requires DeleteOutcome(file, t, e, added) == Ok(Deleted(true))
    ensures Visibility.IsVisible(file, t, Entry.XminOf(e), Entry.XmaxOf(e))
    ensures added == Ok(false) && Entry.XmaxOf(e) != t.xid && !Visibility.IsVersionSkip(file, t, Entry.XmaxOf(e))
    ensures var d := Entry.WithXmax(e, t.xid);
      && Entry.XminOf(d) == Entry.XminOf(e) && Entry.DataOf(d) == Entry.DataOf(e)
      && !Visibility.IsVisible(file, t, Entry.XminOf(e), t.xid)
  {
    OwnDeleteInvisible(file, t, e);
  }

  /** A delete never waits for, nor fails on, an entry the caller cannot see. */
  lemma InvisibleNotLocked(file: seq<byte>, t: Transaction, e: seq<byte>, added: Result<bool>)
    requires t.Valid() && |e| >= Entry.OF_DATA && Entry.XminOf(e) >= 0 && Entry.XmaxOf(e) >= 0
    requires DeleteOutcome(file, t, e, added) != Ok(Deleted(false))
    ensures Visibility.IsVisible(file, t, Entry.XminOf(e), Entry.XmaxOf(e))
  {
  }

  /** A transaction sees the entry it has just inserted, with the data it gave. */
  lemma OwnInsertVisible(file: seq<byte>, t: Transaction, data: seq<byte>)
    requires t.Valid() && IsLong(t.xid)
    ensures var e := Entry.WrapEntryRaw(t.xid, data);
      && Entry.XminOf(e) == t.xid && Entry.XmaxOf(e) == 0 && Entry.DataOf(e) == data
      && Visibility.IsVisible(file, t, t.xid, 0)
  {
    Entry.WrapEntryRoundTrip(t.xid, data);
  }

  /** Once a transaction other than the super transaction has deleted an entry, the entry is invisible to it. */
  lemma OwnDeleteInvisible(file: seq<byte>, t: Transaction, e: seq<byte>)
    requires t.Valid() && t.xid >= 1 && IsLong(t.xid) && |e| >= Entry.OF_DATA && Entry.XminOf(e) >= 0
    ensures var d := Entry.WithXmax(e, t.xid);
      && Entry.XmaxOf(d) == t.xid && Entry.XminOf(d) == Entry.XminOf(e) && Entry.DataOf(d) == Entry.DataOf(e)
      && !Visibility.IsVisible(file, t, Entry.XminOf(e), t.xid)
  {
    Entry.WithXmaxFields(e, t.xid);
    Visibility.OwnDeletionInvisible(file, t, Entry.XminOf(e));
  }
}
