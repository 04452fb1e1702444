/**
 * `Transaction`: the version manager's view of one transaction. Its xid and isolation level are fixed
 * at creation, and so is its snapshot, the xids that were active when it began (repeatable read only);
 * `err` and `autoAborted` change later. The map of `Boolean`s the source keeps is a set of xids here.
 */
module Transaction {
  import opened Wrappers
  import TransactionManager

  class Transaction {
    const xid: nat
    const level: int
    const snapshot: Option<set<nat>>
    var err: Option<Error>
    var autoAborted: bool

    /** A snapshot is taken exactly when the level is not read committed. */
    predicate Valid()
    {
      snapshot.Some? <==> level != 0
    }

    constructor (xid: nat, level: int, snapshot: Option<set<nat>>)
      ensures this.xid == xid && this.level == level && this.snapshot == snapshot
      ensures err == None && !autoAborted
    {
      this.xid := xid;
      this.level := level;
      this.snapshot := snapshot;
      err := None;
      autoAborted := false;
    }

    /** `isInSnapshot`: the super transaction is never in a snapshot; any other xid is when it was taken. */
    predicate IsInSnapshot(x: nat)
      requires x == TransactionManager.SUPER_XID || snapshot.Some?
    {
      x != TransactionManager.SUPER_XID && x in snapshot.value
    }
  }

  /** The snapshot `newTransaction` copies, one key of the active map at a time. */
  method CopyKeys(active: set<nat>) returns (snap: set<nat>)
    ensures snap == active
  {
    snap := {};
    var rest := active;
    while rest != {}
      invariant snap + rest == active && snap !! rest
      decreases |rest|
    {
      ghost var w := NonEmptySetHasMember(rest);
      var x :| x in rest;
      snap := snap + {x};
      rest := rest - {x};
    }
  }

  /**
   * `newTransaction`: xid and level as given; at a level other than 0, a snapshot of the xids active
   * now, which later changes to the active set do not reach.
   */
  method NewTransaction(xid: nat, level: int, active: set<nat>) returns (t: Transaction)
    ensures fresh(t) && t.Valid() && t.xid == xid && t.level == level
    ensures t.snapshot == if level != 0 then Some(active) else None
    ensures t.err == None && !t.autoAborted
  {
    var snapshot: Option<set<nat>> := None;
    if level != 0 {
      var s := CopyKeys(active);
      snapshot := Some(s);
    }
    t := new Transaction(xid, level, snapshot);
  }

  /** Membership in a snapshot taken from the active set: exactly the xids other than 0 active then. */
  lemma InSnapshotIff(t: Transaction, active: set<nat>, x: nat)
    requires t.snapshot == Some(active)
    ensures t.IsInSnapshot(x) <==> x != 0 && x in active
    ensures !t.IsInSnapshot(TransactionManager.SUPER_XID)
  {
  }
}
