/** Option and Result, the failure-carrying values used where the Java code returns null or throws. */
module Wrappers {

  datatype Option<+T> = None | Some(value: T)

  /** The engine's exceptions, by the names of `top.guoziyang.mydb.common.Error`. */
  datatype Error =
    | CacheFull
    | MemTooSmall
    | BadLogFile
    | BadXIDFile
    | DataTooLarge
    | DatabaseBusy
    | NullEntry
    | Deadlock
    | ConcurrentUpdate
    | Busy              // another caller is loading the same key: the Java code sleeps and retries
    | IndexOutOfBounds  // a copy that runs past the end of an array: Java's runtime exception

  datatype Result<+T> = Ok(value: T) | Err(error: Error)

  /** A non-empty map has a key, so a loop that picks an arbitrary key can always pick one. */
  lemma NonEmptyMapHasKey<K, V>(m: map<K, V>) returns (k: K)
    requires m != map[]
    ensures k in m
  {
    if forall k :: k !in m {
      assert false;
    }
    k :| k in m;
  }

  /** A non-empty set has a member. */
  lemma NonEmptySetHasMember<K>(s: set<K>) returns (k: K)
    requires s != {}
    ensures k in s
  {
    if forall k :: k !in s {
      assert false;
    }
    k :| k in s;
  }
}
