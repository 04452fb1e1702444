/**
 * `LockTable`: the version manager's wait-for graph. `x2u` lists the uids each xid acquired directly,
 * `u2x` names the holder of each uid, `wait` queues the xids waiting for each uid, `waitU` names the uid
 * each waiting xid waits for, and `waitLock` holds the xids that were handed a wait lock. The lock object
 * itself is only a token here, so `waitLock` is a set of xids; the table's own mutex is left out.
 *
 * The queues are front-inserted and served from the front, so the newest live waiter is served
 * first. A waiter that is woken becomes the holder in `u2x` but is not entered in `x2u`; the lemmas at
 * the end of the module show what follows from that.
 */
module LockTable {
  import opened Wrappers

  /** The five tables, as one value: the specification state of a `LockTable`. */
  datatype Tables = Tables(
    x2u: map<int, seq<int>>,
    u2x: map<int, int>,
    wait: map<int, seq<int>>,
    waitLock: set<int>,
    waitU: map<int, int>)

  predicate NoDuplicates(s: seq<int>)
  {
    forall i, j | 0 <= i < j < |s| :: s[i] != s[j]
  }

  /**
   * The tables agree with each other: exactly the waiting xids hold a wait lock, each waits for a held
   * uid and sits in that uid's queue, no queue is empty, and each uid an xid lists is held by it, once.
   */
  ghost predicate Consistent(t: Tables)
  {
    && t.waitU.Keys == t.waitLock
    && (forall x | x in t.waitU :: t.waitU[x] in t.u2x)
    && (forall x | x in t.waitU :: t.waitU[x] in t.wait && x in t.wait[t.waitU[x]])
    && (forall u | u in t.wait :: t.wait[u] != [])
    && (forall x, u | x in t.x2u && u in t.x2u[x] :: u in t.u2x && t.u2x[u] == x)
    && (forall x | x in t.x2u :: NoDuplicates(t.x2u[x]))
  }

  /** The index of the first element of `s` that lies in `live`, or `|s|` if there is none. */
  function FirstIn(s: seq<int>, live: set<int>): (i: nat)
    ensures i <= |s|
    ensures forall j | 0 <= j < i :: s[j] !in live
    ensures i < |s| ==> s[i] in live
  {
    if s == [] then 0 else if s[0] in live then 0 else 1 + FirstIn(s[1..], live)
  }

  /** The first index whose element lies in `live` is the one a scan stops at. */
  lemma {:induction false} FirstInIs(s: seq<int>, live: set<int>, i: nat)
    requires i <= |s| && (forall j | 0 <= j < i :: s[j] !in live) && (i < |s| ==> s[i] in live)
    ensures FirstIn(s, live) == i
  {
    if i > 0 {
      FirstInIs(s[1..], live, i - 1);
    }
  }

  /** `isInList`: whether `v` is in the list kept under `k`. */
  predicate InList(m: map<int, seq<int>>, k: int, v: int)
  {
    k in m && v in m[k]
  }

  /** `putIntoList`: `v` goes to the front of the list kept under `k`, which is created if missing. */
  function PutIntoList(m: map<int, seq<int>>, k: int, v: int): (r: map<int, seq<int>>)
    ensures r.Keys == m.Keys + {k} && |r[k]| > 0 && r[k][0] == v
    ensures r[k][1..] == if k in m then m[k] else []
    ensures forall k' | k' in m && k' != k :: r[k'] == m[k']
  {
    m[k := [v] + (if k in m then m[k] else [])]
  }

  /** `removeFromList`: the first `v` leaves the list kept under `k`, and an empty list leaves the map. */
  function ListRemoved(m: map<int, seq<int>>, k: int, v: int): (r: map<int, seq<int>>)
  {
    if k !in m then m
    else
      var l := m[k];
      var i := FirstIn(l, {v});
      var l' := if i < |l| then l[..i] + l[i + 1..] else l;
      if l' == [] then m - {k} else m[k := l']
  }

  /**
   * `selectNewXID(uid)`: `uid` is freed; queued xids without a wait lock are dropped and the first one
   * with a lock becomes the holder, losing its lock and its wait edge. The queue leaves `wait` once it
   * is empty. `x2u` is not touched.
   */
  function SelectNew(t: Tables, uid: int): (r: Tables)
    ensures r.x2u == t.x2u
  {
    var freed := t.(u2x := t.u2x - {uid});
    if uid !in t.wait then freed
    else
      var q := t.wait[uid];
      var i := FirstIn(q, t.waitLock);
      if i == |q| then freed.(wait := t.wait - {uid})
      else
        var x := q[i];
        var rest := q[i + 1..];
        Tables(t.x2u, t.u2x[uid := x], if rest == [] then t.wait - {uid} else t.wait[uid := rest],
               t.waitLock - {x}, t.waitU - {x})
  }

  /** The loop of `remove`: each uid in turn leaves the xid's list, then is handed on. */
  function ReleaseAll(t: Tables, xid: int, uids: seq<int>): Tables
    decreases |uids|
  {
    if uids == [] then t
    else ReleaseAll(SelectNew(t.(x2u := t.x2u[xid := uids[1..]]), uids[0]), xid, uids[1..])
  }

  /** `remove(xid)`: every uid in `x2u[xid]` is released, then xid leaves `x2u`, `waitU` and `waitLock`. */
  function Removed(t: Tables, xid: int): Tables
  {
    var r := if xid in t.x2u then ReleaseAll(t, xid, t.x2u[xid]) else t;
    r.(x2u := r.x2u - {xid}, waitLock := r.waitLock - {xid}, waitU := r.waitU - {xid})
  }

  /** One step of the wait-for graph: the holder of the uid `x` waits for, if `x` waits. */
  function Next(t: Tables, x: int): Option<int>
  {
    if x in t.waitU && t.waitU[x] in t.u2x then Some(t.u2x[t.waitU[x]]) else None
  }

  /** The xid reached after `n` steps from `x`, or `None` once the chain has ended. */
  function Follow(t: Tables, x: int, n: nat): Option<int>
  {
    if n == 0 then Some(x)
    else match Follow(t, x, n - 1)
      case None => None
      case Some(y) => Next(t, y)
  }

  /** The chain from `x` never ends. */
  ghost predicate Endless(t: Tables, x: int)
  {
    forall n: nat :: Follow(t, x, n).Some?
  }

  /** The chain from `x` comes back to an xid it already visited. */
  ghost predicate Revisits(t: Tables, x: int)
  {
    exists i: nat, j: nat :: i < j && Follow(t, x, i).Some? && Follow(t, x, i) == Follow(t, x, j)
  }

  /** What `hasDeadLock` reports: the chain from some xid with a list in `x2u` revisits an xid. */
  ghost predicate Deadlocked(t: Tables)
  {
    exists s | s in t.x2u :: Revisits(t, s)
  }

  /**
   * `add(xid, uid)`: no wait if xid listed uid already or uid is free (which makes xid its holder);
   * otherwise the wait edge is recorded and then either removed again on a deadlock, or kept with a
   * wait lock for xid. `Ok(true)` stands for the returned lock, `Ok(false)` for `null`.
   */
  ghost function AddOutcome(t: Tables, xid: int, uid: int): (Tables, Result<bool>)
  {
    if InList(t.x2u, xid, uid) then (t, Ok(false))
    else if uid !in t.u2x then (t.(u2x := t.u2x[uid := xid], x2u := PutIntoList(t.x2u, xid, uid)), Ok(false))
    else
      var w := t.(waitU := t.waitU[xid := uid], wait := PutIntoList(t.wait, uid, xid));
      if Deadlocked(w) then (w.(waitU := w.waitU - {xid}, wait := ListRemoved(w.wait, uid, xid)), Err(Deadlock))
      else (w.(waitLock := w.waitLock + {xid}), Ok(true))
  }

  class LockTable {
    var x2u: map<int, seq<int>>
    var u2x: map<int, int>
    var wait: map<int, seq<int>>
    var waitLock: set<int>
    var waitU: map<int, int>
    var xidStamp: map<int, int>
    var stamp: int

    function Contents(): Tables
      reads this
    {
      Tables(x2u, u2x, wait, waitLock, waitU)
    }

    ghost predicate Valid()
      reads this
    {
      Consistent(Contents())
    }

    constructor ()
      ensures Valid() && Contents() == Tables(map[], map[], map[], {}, map[])
    {
      x2u := map[];
      u2x := map[];
      wait := map[];
      waitLock := {};
      waitU := map[];
      xidStamp := map[];
      stamp := 0;
    }

    /**
     * `add`: `Ok(false)` when no wait is needed, `Ok(true)` when xid must wait on its new lock, and
     * `Err(Deadlock)` with the tables as they were when waiting would close a cycle. The caller is a
     * running transaction, so it is not waiting for a lock itself.
     */
    method Add(xid: int, uid: int) returns (r: Result<bool>)
      requires Valid() && xid !in waitU
      modifies this
      ensures Valid() && (Contents(), r) == AddOutcome(old(Contents()), xid, uid)
    {
      ghost var t := Contents();
      AddConsistent(t, xid, uid);
      var held := IsInList(x2u, xid, uid);
      if held {
        return Ok(false);
      }
      if uid !in u2x {
        u2x := u2x[uid := xid];
        x2u := PutIntoList(x2u, xid, uid);
        assert Contents() == AddOutcome(t, xid, uid).0;
        return Ok(false);
      }
      waitU := waitU[xid := uid];
      wait := PutIntoList(wait, uid, xid);
      ghost var w := Contents();
      var dl := HasDeadLock();
      assert dl == Deadlocked(w);
      if dl {
        waitU := waitU - {xid};
        wait := RemoveFromList(wait, uid, xid);
        assert Contents() == AddOutcome(t, xid, uid).0;
        return Err(Deadlock);
      }
      waitLock := waitLock + {xid};
      assert Contents() == AddOutcome(t, xid, uid).0;
      return Ok(true);
    }

    /** `remove`: releases xid's listed uids one by one, then erases xid from the tables. */
    method Remove(xid: int)
      requires Valid()
      modifies this
      ensures Valid() && Contents() == Removed(old(Contents()), xid)
      ensures xidStamp == old(xidStamp) && stamp == old(stamp)
    {
      RemovedConsistent(Contents(), xid);
      if xid in x2u {
        var l := x2u[xid];
        while |l| > 0
          invariant xid in x2u && x2u[xid] == l
          invariant ReleaseAll(Contents(), xid, l) == ReleaseAll(old(Contents()), xid, old(x2u[xid]))
          invariant xidStamp == old(xidStamp) && stamp == old(stamp)
          decreases |l|
        {
          var uid := l[0];
          l := l[1..];
          x2u := x2u[xid := l];
          SelectNewXID(uid);
        }
      }
      waitU := waitU - {xid};
      x2u := x2u - {xid};
      waitLock := waitLock - {xid};
    }

    /** `selectNewXID`: hands `uid` to its first queued xid that still holds a wait lock. */
    method SelectNewXID(uid: int)
      modifies this`u2x, this`wait, this`waitLock, this`waitU
      ensures Contents() == SelectNew(old(Contents()), uid)
      ensures xidStamp == old(xidStamp) && stamp == old(stamp)
    {
      u2x := u2x - {uid};
      if uid !in wait {
        return;
      }
      var q := wait[uid];
      var i := 0;
      while i < |q| && q[i] !in waitLock
        invariant 0 <= i <= |q| && forall j | 0 <= j < i :: q[j] !in waitLock
      {
        i := i + 1;
      }
      FirstInIs(q, waitLock, i);
      var rest := [];
      if i < |q| {
        var x := q[i];
        u2x := u2x[uid := x];
        waitLock := waitLock - {x};
        waitU := waitU - {x};
        rest := q[i + 1..];
      }
      wait := if rest == [] then wait - {uid} else wait[uid := rest];
    }

    /**
     * `hasDeadLock`: a depth-first walk from each xid with a list in `x2u` not yet stamped, each walk
     * with a new stamp; it reports a deadlock as soon as a walk meets its own stamp.
     */
    method HasDeadLock() returns (b: bool)
      requires forall x | x in waitU :: waitU[x] in u2x
      modifies this`xidStamp, this`stamp
      ensures Contents() == old(Contents())
      ensures b <==> Deadlocked(Contents())
    {
      xidStamp := map[];
      stamp := 1;
      var todo := x2u.Keys;
      while todo != {}
        invariant Contents() == old(Contents()) && todo <= x2u.Keys
        invariant 0 < stamp && forall y | y in xidStamp :: 0 < xidStamp[y] <= stamp
        invariant forall y | y in xidStamp :: !Endless(Contents(), y)
        invariant forall s | s in x2u && s !in todo :: !Revisits(Contents(), s)
        decreases |todo|
      {
        ghost var some := NonEmptySetHasMember(todo);
        var s :| s in todo;
        todo := todo - {s};
        if s in xidStamp && xidStamp[s] > 0 {
          EndlessIfRevisits(Contents(), s);
          continue;
        }
        stamp := stamp + 1;
        b := Dfs(s, s, 0, u2x.Values + x2u.Keys);
        if b {
          return;
        }
        EndlessIfRevisits(Contents(), s);
      }
      b := false;
    }

    /**
     * `dfs(x)`, where `x` is `k` steps down the chain from `root` and the xids stamped in this round are
     * the ones before it: true iff the walk meets this round's stamp, which happens exactly when the
     * chain from `root` revisits an xid. Xids stamped in earlier rounds have chains that end.
     */
    method Dfs(x: int, ghost root: int, ghost k: nat, ghost nodes: set<int>) returns (b: bool)
      requires forall y | y in waitU :: waitU[y] in u2x
      requires Follow(Contents(), root, k) == Some(x) && x in nodes && (forall u | u in u2x :: u2x[u] in nodes)
      requires 0 < stamp && forall y | y in xidStamp :: 0 < xidStamp[y] <= stamp
      requires forall y | y in xidStamp && xidStamp[y] < stamp :: !Endless(Contents(), y)
      requires forall y | y in xidStamp && xidStamp[y] == stamp :: y in ChainPrefix(Contents(), root, k)
      modifies this`xidStamp
      ensures Contents() == old(Contents()) && stamp == old(stamp)
      ensures b ==> Revisits(Contents(), root)
      ensures !b ==> !Endless(Contents(), root) && forall y | y in xidStamp :: !Endless(Contents(), y)
      ensures forall y | y in xidStamp :: 0 < xidStamp[y] <= stamp
      ensures forall y | y in old(xidStamp) :: y in xidStamp && xidStamp[y] == old(xidStamp[y])
      decreases nodes - xidStamp.Keys
    {
      if x in xidStamp && xidStamp[x] == stamp {
        ghost var i := ChainPrefixStep(Contents(), root, k, x);
        return true;
      }
      if x in xidStamp && xidStamp[x] < stamp {
        EndlessAlong(Contents(), root, k, x);
        CurrentRoundEnds(Contents(), root, k);
        return false;
      }
      ghost var t := Contents();
      ghost var unstamped := nodes - xidStamp.Keys;
      if x in waitU {
        ValueIn(u2x, nodes, waitU[x]);
      }
      xidStamp := xidStamp[x := stamp];
      assert nodes - xidStamp.Keys == unstamped - {x} && x in unstamped;
      if x !in waitU {
        assert Follow(t, root, k + 1) == None;
        CurrentRoundEnds(t, root, k + 1);
        return false;
      }
      var y := u2x[waitU[x]];
      assert Follow(t, root, k + 1) == Some(y);
      assert ChainPrefix(t, root, k + 1) == ChainPrefix(t, root, k) + {x};
      b := Dfs(y, root, k + 1, nodes);
    }

    /** A key's value, where every value lies in `s`. */
    static lemma ValueIn(m: map<int, int>, s: set<int>, u: int)
      requires (forall v | v in m :: m[v] in s) && u in m
      ensures m[u] in s
    {
    }

    /** `isInList`, as the loop over the list. */
    static method IsInList(m: map<int, seq<int>>, k: int, v: int) returns (b: bool)
      ensures b <==> InList(m, k, v)
    {
      if k !in m {
        return false;
      }
      var l := m[k];
      var i := 0;
      while i < |l|
        invariant 0 <= i <= |l| && v !in l[..i]
      {
        if l[i] == v {
          return true;
        }
        i := i + 1;
      }
      assert l[..i] == l;
      return false;
    }

    /** `removeFromList`, as the loop that finds the first `v`. */
    static method RemoveFromList(m: map<int, seq<int>>, k: int, v: int) returns (r: map<int, seq<int>>)
      ensures r == ListRemoved(m, k, v)
    {
      if k !in m {
        return m;
      }
      var l := m[k];
      var i := 0;
      while i < |l| && l[i] != v
        invariant 0 <= i <= |l| && FirstIn(l, {v}) == i + FirstIn(l[i..], {v})
      {
        assert l[i..][1..] == l[i + 1..];
        i := i + 1;
      }
      if i < |l| {
        l := l[..i] + l[i + 1..];
      }
      r := if l == [] then m - {k} else m[k := l];
    }
  }

  /** Once the chain ends it stays ended. */
  lemma {:induction false} EndedStaysEnded(t: Tables, x: int, n: nat, m: nat)
    requires n <= m && Follow(t, x, n) == None
    ensures Follow(t, x, m) == None
    decreases m - n
  {
    if n < m {
      EndedStaysEnded(t, x, n, m - 1);
    }
  }

  /** Following `i` steps and then `n` more is following `i + n` steps. */
  lemma {:induction false} FollowShift(t: Tables, x: int, i: nat, y: int, n: nat)
    requires Follow(t, x, i) == Some(y)
    ensures Follow(t, x, i + n) == Follow(t, y, n)
  {
    if n > 0 {
      FollowShift(t, x, i, y, n - 1);
    }
  }

  /** An endless chain passes its endlessness on to every xid along it; an ended one, back to its start. */
  lemma EndlessAlong(t: Tables, x: int, i: nat, y: int)
    requires Follow(t, x, i) == Some(y)
    ensures Endless(t, x) <==> Endless(t, y)
  {
    if Endless(t, x) {
      forall n: nat ensures Follow(t, y, n).Some? {
        FollowShift(t, x, i, y, n);
      }
    }
    if Endless(t, y) {
      forall n: nat ensures Follow(t, x, n).Some? {
        if n <= i {
          if Follow(t, x, n) == None {
            EndedStaysEnded(t, x, n, i);
          }
        } else {
          FollowShift(t, x, i, y, n - i);
        }
      }
    }
  }

  /** The xids met in the first `k` steps from `x`. */
  function ChainPrefix(t: Tables, x: int, k: nat): set<int>
  {
    if k == 0 then {}
    else ChainPrefix(t, x, k - 1) + match Follow(t, x, k - 1) case None => {} case Some(y) => {y}
  }

  /** Each xid met in the first `k` steps is met at some step before `k`. */
  lemma {:induction false} ChainPrefixStep(t: Tables, x: int, k: nat, y: int) returns (i: nat)
    requires y in ChainPrefix(t, x, k)
    ensures i < k && Follow(t, x, i) == Some(y)
  {
    if y in ChainPrefix(t, x, k - 1) {
      i := ChainPrefixStep(t, x, k - 1, y);
    } else {
      i := k - 1;
    }
  }

  /** Every xid among the first `k` steps from `root` has an ended chain when `root` has. */
  lemma CurrentRoundEnds(t: Tables, root: int, k: nat)
    requires !Endless(t, root)
    ensures forall y | y in ChainPrefix(t, root, k) :: !Endless(t, y)
  {
    forall y | y in ChainPrefix(t, root, k) ensures !Endless(t, y) {
      var i := ChainPrefixStep(t, root, k, y);
      EndlessAlong(t, root, i, y);
    }
  }

  /** A chain that comes back to an xid goes round forever. */
  lemma {:induction false} CycleEndless(t: Tables, x: int, i: nat, j: nat, n: nat)
    requires i < j && Follow(t, x, i).Some? && Follow(t, x, i) == Follow(t, x, j)
    ensures Follow(t, x, n).Some?
    decreases n
  {
    if n <= j {
      if Follow(t, x, n) == None {
        EndedStaysEnded(t, x, n, j);
      }
    } else {
      var y := Follow(t, x, j).value;
      FollowShift(t, x, j, y, n - j);
      FollowShift(t, x, i, y, n - j);
      CycleEndless(t, x, i, j, i + (n - j));
    }
  }

  /** A chain that revisits an xid is endless. */
  lemma EndlessIfRevisits(t: Tables, x: int)
    ensures Revisits(t, x) ==> Endless(t, x)
  {
    if Revisits(t, x) {
      var i: nat, j: nat :| i < j && Follow(t, x, i).Some? && Follow(t, x, i) == Follow(t, x, j);
      forall n: nat ensures Follow(t, x, n).Some? {
        CycleEndless(t, x, i, j, n);
      }
    }
  }

  /** `add` keeps the tables consistent, for a caller that is not itself waiting. */
  lemma AddConsistent(t: Tables, xid: int, uid: int)
    requires Consistent(t) && xid !in t.waitU
    ensures Consistent(AddOutcome(t, xid, uid).0)
  {
    if InList(t.x2u, xid, uid) {
    } else if uid !in t.u2x {
      AcquireConsistent(t, xid, uid);
    } else {
      var w := t.(waitU := t.waitU[xid := uid], wait := PutIntoList(t.wait, uid, xid));
      if Deadlocked(w) {
        AddDeadlockRestores(t, xid, uid);
      } else {
        WaitConsistent(t, xid, uid);
      }
    }
  }

  /** Taking a free uid keeps the tables consistent. */
  lemma AcquireConsistent(t: Tables, xid: int, uid: int)
    requires Consistent(t) && uid !in t.u2x
    ensures Consistent(t.(u2x := t.u2x[uid := xid], x2u := PutIntoList(t.x2u, xid, uid)))
  {
    var r := t.(u2x := t.u2x[uid := xid], x2u := PutIntoList(t.x2u, xid, uid));
    forall x, u | x in r.x2u && u in r.x2u[x]
      ensures u in r.u2x && r.u2x[u] == x
    {
      if x == xid && u == uid {
      } else {
        assert x in t.x2u && u in t.x2u[x];
      }
    }
  }

  /** Queueing xid behind the holder of uid, with a wait lock, keeps the tables consistent. */
  lemma WaitConsistent(t: Tables, xid: int, uid: int)
    requires Consistent(t) && xid !in t.waitU && uid in t.u2x
    ensures var w := t.(waitU := t.waitU[xid := uid], wait := PutIntoList(t.wait, uid, xid));
      Consistent(w.(waitLock := w.waitLock + {xid}))
  {
  }

  /** A deadlocked `add` removes exactly the edge it recorded: the tables are as before. */
  lemma AddDeadlockRestores(t: Tables, xid: int, uid: int)
    requires Consistent(t) && xid !in t.waitU
    requires AddOutcome(t, xid, uid).1 == Err(Deadlock)
    ensures AddOutcome(t, xid, uid).0 == t
  {
    var w := PutIntoList(t.wait, uid, xid);
    assert FirstIn(w[uid], {xid}) == 0;
    assert w[uid][..0] + w[uid][1..] == if uid in t.wait then t.wait[uid] else [];
    if uid in t.wait {
      assert ListRemoved(w, uid, xid) == w[uid := t.wait[uid]];
    } else {
      assert ListRemoved(w, uid, xid) == w - {uid};
    }
    assert ListRemoved(w, uid, xid) == t.wait;
  }

  /** `add` without a wait leaves xid the holder of uid, with uid in its list. */
  lemma AddNoWaitHolds(t: Tables, xid: int, uid: int)
    requires Consistent(t) && AddOutcome(t, xid, uid).1 == Ok(false)
    ensures var r := AddOutcome(t, xid, uid).0; r.u2x[uid] == xid && InList(r.x2u, xid, uid)
  {
    if InList(t.x2u, xid, uid) {
      assert uid in t.x2u[xid];
    } else if uid !in t.u2x {
      assert PutIntoList(t.x2u, xid, uid)[xid][0] == uid;
    }
  }

  /** `add` with a wait leaves xid waiting for uid at the front of its queue, holding a wait lock. */
  lemma AddWaitQueuesFront(t: Tables, xid: int, uid: int)
    requires Consistent(t) && AddOutcome(t, xid, uid).1 == Ok(true)
    ensures var r := AddOutcome(t, xid, uid).0;
      && r.waitU[xid] == uid && r.wait[uid][0] == xid && xid in r.waitLock && uid in t.u2x
      && r.x2u == t.x2u && r.u2x == t.u2x && !Deadlocked(r)
  {
    var w := t.(waitU := t.waitU[xid := uid], wait := PutIntoList(t.wait, uid, xid));
    SameGraphSameDeadlock(w, w.(waitLock := w.waitLock + {xid}));
  }

  /** Only `x2u`, `u2x` and `waitU` enter the wait-for graph. */
  lemma SameGraphSameDeadlock(t: Tables, t': Tables)
    requires t.x2u == t'.x2u && t.u2x == t'.u2x && t.waitU == t'.waitU
    ensures Deadlocked(t) == Deadlocked(t')
  {
    forall x, n: nat ensures Follow(t, x, n) == Follow(t', x, n) {
      SameGraphSameChain(t, t', x, n);
    }
  }

  lemma {:induction false} SameGraphSameChain(t: Tables, t': Tables, x: int, n: nat)
    requires t.u2x == t'.u2x && t.waitU == t'.waitU
    ensures Follow(t, x, n) == Follow(t', x, n)
  {
    if n > 0 {
      SameGraphSameChain(t, t', x, n - 1);
    }
  }

  /**
   * Handing on a uid keeps the tables consistent, provided no list names it any more: its new holder,
   * if any, is the first queued xid with a wait lock, and no remaining waiter is left without a holder.
   */
  lemma SelectNewConsistent(t: Tables, uid: int)
    requires Consistent(t) && forall x | x in t.x2u :: uid !in t.x2u[x]
    ensures Consistent(SelectNew(t, uid))
  {
    if uid in t.wait {
      var q := t.wait[uid];
      var i := FirstIn(q, t.waitLock);
      if i < |q| {
        var r := SelectNew(t, uid);
        forall y | y in r.waitU
          ensures r.waitU[y] in r.wait && y in r.wait[r.waitU[y]]
        {
          if t.waitU[y] == uid {
            var j :| 0 <= j < |q| && q[j] == y;
            assert q[i + 1..][j - i - 1] == y;
          }
        }
      }
    }
  }

  /** Taking the first uid off xid's list keeps the tables consistent and leaves that uid in no list. */
  lemma DropHeadConsistent(t: Tables, xid: int)
    requires Consistent(t) && xid in t.x2u && t.x2u[xid] != []
    ensures var l := t.x2u[xid]; var t' := t.(x2u := t.x2u[xid := l[1..]]);
      Consistent(t') && forall x | x in t'.x2u :: l[0] !in t'.x2u[x]
  {
    var l := t.x2u[xid];
    var t' := t.(x2u := t.x2u[xid := l[1..]]);
    forall x, u | x in t'.x2u && u in t'.x2u[x]
      ensures u in t'.u2x && t'.u2x[u] == x
    {
      if x == xid {
        var j :| 0 <= j < |l[1..]| && l[1..][j] == u;
        assert l[j + 1] == u;
      }
    }
    assert l[0] in t.x2u[xid];
    forall x | x in t'.x2u
      ensures l[0] !in t'.x2u[x]
    {
      if x == xid {
        if l[0] in l[1..] {
          assert false;
        }
      } else {
        assert x in t.x2u && t'.x2u[x] == t.x2u[x];
        if l[0] in t.x2u[x] {
          ListedOnce(t, x, xid, l[0]);
          assert false;
        }
      }
    }
  }

  /** A uid is listed under one xid at most. */
  lemma ListedOnce(t: Tables, x: int, x': int, u: int)
    requires Consistent(t) && x in t.x2u && x' in t.x2u && u in t.x2u[x] && u in t.x2u[x']
    ensures x == x'
  {
    assert t.u2x[u] == x && t.u2x[u] == x';
  }

  lemma {:induction false} ReleaseAllConsistent(t: Tables, xid: int, l: seq<int>)
    requires Consistent(t) && xid in t.x2u && t.x2u[xid] == l
    ensures Consistent(ReleaseAll(t, xid, l))
    decreases |l|
  {
    if l != [] {
      DropHeadConsistent(t, xid);
      var t' := t.(x2u := t.x2u[xid := l[1..]]);
      SelectNewConsistent(t', l[0]);
      ReleaseAllConsistent(SelectNew(t', l[0]), xid, l[1..]);
    }
  }

  /** `remove` keeps the tables consistent. */
  lemma RemovedConsistent(t: Tables, xid: int)
    requires Consistent(t)
    ensures Consistent(Removed(t, xid))
  {
    if xid in t.x2u {
      ReleaseAllConsistent(t, xid, t.x2u[xid]);
    }
  }

  /** Releasing a list changes only the released xid's own entry of `x2u`. */
  lemma {:induction false} ReleaseAllKeepsLists(t: Tables, xid: int, l: seq<int>)
    requires xid in t.x2u
    ensures ReleaseAll(t, xid, l).x2u == t.x2u[xid := if l == [] then t.x2u[xid] else []]
    decreases |l|
  {
    if l != [] {
      ReleaseAllKeepsLists(SelectNew(t.(x2u := t.x2u[xid := l[1..]]), l[0]), xid, l[1..]);
    }
  }

  /**
   * After releasing a list, xid holds exactly the uids it held before outside that list: the listed
   * ones go to other xids or become free, since xid holds no wait lock, and the rest stay as they were.
   */
  lemma {:induction false} ReleaseAllHolder(t: Tables, xid: int, l: seq<int>)
    requires xid !in t.waitLock
    ensures var r := ReleaseAll(t, xid, l);
      forall u :: (u in r.u2x && r.u2x[u] == xid) <==> (u !in l && u in t.u2x && t.u2x[u] == xid)
    decreases |l|
  {
    if l != [] {
      var t' := SelectNew(t.(x2u := t.x2u[xid := l[1..]]), l[0]);
      assert xid !in t'.waitLock;
      ReleaseAllHolder(t', xid, l[1..]);
    }
  }

  /**
   * `remove` erases xid from `x2u`, `waitU` and `waitLock` and leaves every other list alone; xid keeps
   * exactly the uids it held that were not in its list.
   */
  lemma RemovedReleases(t: Tables, xid: int)
    requires xid !in t.waitLock
    ensures var r := Removed(t, xid);
      && r.x2u == t.x2u - {xid} && xid !in r.waitU && xid !in r.waitLock
      && forall u :: (u in r.u2x && r.u2x[u] == xid) <==>
           (u in t.u2x && t.u2x[u] == xid && !InList(t.x2u, xid, u))
  {
    if xid in t.x2u {
      ReleaseAllKeepsLists(t, xid, t.x2u[xid]);
      ReleaseAllHolder(t, xid, t.x2u[xid]);
    }
  }

  /**
   * Handing on a uid serves the front of its queue: the first queued xid with a wait lock becomes the
   * holder and stops waiting, the ones before it are dropped, the ones after it stay queued; if no
   * queued xid has a wait lock the uid is free.
   */
  lemma SelectNewServesFirstLive(t: Tables, uid: int)
    requires uid in t.wait
    ensures var r := SelectNew(t, uid); var q := t.wait[uid]; var i := FirstIn(q, t.waitLock);
      && (forall j | 0 <= j < i :: q[j] !in t.waitLock)
      && (i == |q| ==> uid !in r.u2x && uid !in r.wait)
      && (i < |q| ==> r.u2x[uid] == q[i] && q[i] !in r.waitLock && q[i] !in r.waitU
                      && (uid in r.wait ==> r.wait[uid] == q[i + 1..]))
  {
  }

  /**
   * The queue is last in, first out: an xid with a wait lock that queued last for a uid is the one
   * the uid goes to, and the xids queued before it stay queued in their order.
   */
  lemma NewestWaiterServedFirst(t: Tables, uid: int, xid: int)
    requires xid in t.waitLock && uid in t.wait && t.wait[uid] != []
    ensures var r := SelectNew(t.(wait := PutIntoList(t.wait, uid, xid)), uid);
      r.u2x[uid] == xid && r.wait[uid] == t.wait[uid] && xid !in r.waitLock
  {
  }

  /** A woken xid becomes the holder in `u2x`, but its list in `x2u` does not gain the uid. */
  lemma WokenNotListed(t: Tables, uid: int)
    requires uid in t.wait && FirstIn(t.wait[uid], t.waitLock) < |t.wait[uid]|
    ensures var x := t.wait[uid][FirstIn(t.wait[uid], t.waitLock)]; var r := SelectNew(t, uid);
      r.u2x[uid] == x && r.x2u == t.x2u && (InList(r.x2u, x, uid) <==> InList(t.x2u, x, uid))
  {
  }

  /**
   * As a consequence, a uid an xid got by being woken stays held by it after `remove`: it is never
   * handed on (here, xid 1 woken for uid 7 keeps it once removed).
   */
  lemma WokenLockOutlivesRemove()
    ensures var t := Tables(map[2 := [7]], map[7 := 2], map[7 := [1]], {1}, map[1 := 7]);
      var woken := Removed(t, 2);
      && woken.u2x == map[7 := 1] && woken.x2u == map[]
      && Removed(woken, 1).u2x == map[7 := 1]
  {
    var t := Tables(map[2 := [7]], map[7 := 2], map[7 := [1]], {1}, map[1 := 7]);
    assert FirstIn([1], {1}) == 0;
    var t1 := SelectNew(t.(x2u := t.x2u[2 := []]), 7);
    assert t1 == Tables(map[2 := []], map[7 := 1], map[], {}, map[]);
    assert Removed(t, 2) == Tables(map[], map[7 := 1], map[], {}, map[]);
  }

  /**
   * And `hasDeadLock` only starts from xids with a list in `x2u`, so a cycle among woken xids goes
   * unnoticed: xid 1 waits for uid 3 held by xid 2, both holding by wake-up, and xid 2 asking for uid
   * 2 held by xid 1 is handed a wait lock although the two now wait for each other.
   */
  lemma WokenCycleMissed()
    ensures var t := Tables(map[], map[2 := 1, 3 := 2], map[3 := [1]], {1}, map[1 := 3]);
      var (r, res) := AddOutcome(t, 2, 2);
      && Consistent(t) && res == Ok(true) && Revisits(r, 1) && Revisits(r, 2)
  {
    var t := Tables(map[], map[2 := 1, 3 := 2], map[3 := [1]], {1}, map[1 := 3]);
    var w := t.(waitU := t.waitU[2 := 2], wait := PutIntoList(t.wait, 2, 2));
    assert !Deadlocked(w);
    var r := w.(waitLock := w.waitLock + {2});
    assert Next(r, 1) == Some(2) && Next(r, 2) == Some(1);
    assert Follow(r, 1, 1) == Some(2);
    assert Follow(r, 1, 2) == Some(1);
    assert Follow(r, 1, 0).Some? && Follow(r, 1, 0) == Follow(r, 1, 2);
    assert Follow(r, 2, 1) == Some(1);
    assert Follow(r, 2, 2) == Some(2);
    assert Follow(r, 2, 0).Some? && Follow(r, 2, 0) == Follow(r, 2, 2);
  }
}
