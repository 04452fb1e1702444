/**
 * `Visibility`: whether a version, known by its `xmin` and `xmax`, is visible to a transaction, and
 * whether deleting it would skip a version. Statuses are read from the XID file's bytes, as
 * `TransactionManagerImpl.isCommitted` reads them.
 */
module Visibility {
  import TM = TransactionManager
  import opened Bytes
  import opened Transaction

  /** `readCommitted`: the caller's own live version, or one created by a committed xid and not deleted by a committed one. */
  predicate ReadCommitted(tm: seq<byte>, t: Transaction, xmin: nat, xmax: nat)
  {
    if xmin == t.xid && xmax == 0 then true
    else if TM.Committed(tm, xmin) then
      if xmax == 0 then true
      else xmax != t.xid && !TM.Committed(tm, xmax)
    else false
  }

  /**
   * `repeatableRead`: the caller's own live version, or one created by a committed xid older than the
   * caller and not active at its start, and not deleted by an xid whose deletion the caller can see.
   */
  predicate RepeatableRead(tm: seq<byte>, t: Transaction, xmin: nat, xmax: nat)
    requires t.Valid() && t.level != 0
  {
    if xmin == t.xid && xmax == 0 then true
    else if TM.Committed(tm, xmin) && xmin < t.xid && !t.IsInSnapshot(xmin) then
      if xmax == 0 then true
      else xmax != t.xid && (!TM.Committed(tm, xmax) || xmax > t.xid || t.IsInSnapshot(xmax))
    else false
  }

  /** `isVisible`: level 0 is read committed, every other level repeatable read. */
  predicate IsVisible(tm: seq<byte>, t: Transaction, xmin: nat, xmax: nat)
    requires t.Valid()
  {
    if t.level == 0 then ReadCommitted(tm, t, xmin, xmax) else RepeatableRead(tm, t, xmin, xmax)
  }

  /** `isVersionSkip`: never at level 0; otherwise the deleter committed but is invisible to the caller. */
  predicate IsVersionSkip(tm: seq<byte>, t: Transaction, xmax: nat)
    requires t.Valid()
  {
    if t.level == 0 then false
    else TM.Committed(tm, xmax) && (xmax > t.xid || t.IsInSnapshot(xmax))
  }

  /** Read committed, as one formula over the two statuses. */
  lemma ReadCommittedIff(tm: seq<byte>, t: Transaction, xmin: nat, xmax: nat)
    ensures ReadCommitted(tm, t, xmin, xmax) <==>
      || (xmin == t.xid && xmax == 0)
      || (TM.Committed(tm, xmin) && (xmax == 0 || (xmax != t.xid && !TM.Committed(tm, xmax))))
  {
  }

  /** Repeatable read, as one formula over the statuses and the snapshot. */
  lemma RepeatableReadIff(tm: seq<byte>, t: Transaction, xmin: nat, xmax: nat)
    requires t.Valid() && t.level != 0
    ensures RepeatableRead(tm, t, xmin, xmax) <==>
      || (xmin == t.xid && xmax == 0)
      || (&& TM.Committed(tm, xmin) && xmin < t.xid && !t.IsInSnapshot(xmin)
          && (xmax == 0 || (xmax != t.xid && (!TM.Committed(tm, xmax) || xmax > t.xid || t.IsInSnapshot(xmax)))))
  {
  }

  /** A transaction other than the super transaction never sees a version it deleted itself. */
  lemma OwnDeletionInvisible(tm: seq<byte>, t: Transaction, xmin: nat)
    requires t.Valid() && t.xid != TM.SUPER_XID
    ensures !IsVisible(tm, t, xmin, t.xid)
  {
  }

  /** No dirty reads: a version created by another xid that has not committed is invisible at both levels. */
  lemma NoDirtyRead(tm: seq<byte>, t: Transaction, xmin: nat, xmax: nat)
    requires t.Valid() && xmin != t.xid && !TM.Committed(tm, xmin)
    ensures !IsVisible(tm, t, xmin, xmax)
  {
  }

  /**
   * Under repeatable read a version created by another xid that began after the caller, or was still
   * active when the caller began, is invisible whatever its status.
   */
  lemma LaterCreatorInvisible(tm: seq<byte>, t: Transaction, xmin: nat, xmax: nat)
    requires t.Valid() && t.level != 0 && xmin != t.xid
    requires xmin >= t.xid || t.IsInSnapshot(xmin)
    ensures !IsVisible(tm, t, xmin, xmax)
  {
  }

  /**
   * Repeatable read depends only on the statuses of the xids older than the caller that had finished
   * when it began: later commits or aborts of any other xid do not change what it sees.
   */
  lemma RepeatableReadStable(tm: seq<byte>, tm': seq<byte>, t: Transaction, xmin: nat, xmax: nat)
    requires t.Valid() && t.level != 0
    requires forall y: nat | y < t.xid && !t.IsInSnapshot(y) :: TM.Committed(tm, y) == TM.Committed(tm', y)
    ensures IsVisible(tm, t, xmin, xmax) == IsVisible(tm', t, xmin, xmax)
  {
    if xmin < t.xid && !t.IsInSnapshot(xmin) {
      assert TM.Committed(tm, xmin) == TM.Committed(tm', xmin);
    }
    if xmax < t.xid && !t.IsInSnapshot(xmax) {
      assert TM.Committed(tm, xmax) == TM.Committed(tm', xmax);
    }
  }

  /**
   * Under repeatable read, a visible version whose deleter has committed is exactly a version skip:
   * the deletion happened in an xid the caller cannot see, so a delete on it must not go ahead.
   */
  lemma VisibleCommittedDeleteSkips(tm: seq<byte>, t: Transaction, xmin: nat, xmax: nat)
    requires t.Valid() && t.level != 0 && xmax != 0 && TM.Committed(tm, xmax)
    requires IsVisible(tm, t, xmin, xmax)
    ensures IsVersionSkip(tm, t, xmax)
  {
  }

  /** Read committed never reports a version skip, and sees a committed deletion as a deletion. */
  lemma ReadCommittedNoSkip(tm: seq<byte>, t: Transaction, xmin: nat, xmax: nat)
    requires t.Valid() && t.level == 0 && xmax != 0 && TM.Committed(tm, xmax)
    ensures !IsVersionSkip(tm, t, xmax) && !IsVisible(tm, t, xmin, xmax)
  {
  }
}
