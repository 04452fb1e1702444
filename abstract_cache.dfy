/**
 * The reference-counted cache every higher cache is built on (pages, data items, entries).
 * The subclass hooks `getForCache` and `releaseForCache` become the caller's job: the load is split
 * into BeginGet (which marks the key as being fetched) and EndGet/FailGet (which finish it), and
 * Release/Close RETURN the objects whose write-back hook must now run.
 */
module Cache {
  import opened Wrappers

  /** What the first half of `get` decided. */
  datatype GetStep<T> =
    | Hit(obj: T)   // cached: the reference count went up by one
    | Wait          // another caller is fetching this key: the source sleeps 1 ms and starts over
    | Full          // bounded and full: CacheFull
    | Load          // marked as being fetched: the caller must now run `getForCache`

  class AbstractCache<T> {
    var cache: map<int, T>          // the cached objects
    var references: map<int, int>   // reference count of each cached key
    var getting: set<int>           // keys whose `getForCache` is in progress
    const maxResource: int          // 0 or less means unbounded
    var count: int                  // cached plus being-fetched keys

    /** The bookkeeping `get` and `release` keep. */
    ghost predicate Valid()
      reads this
    {
      && cache.Keys == references.Keys
      && (forall k | k in references :: references[k] >= 1)
      && cache.Keys !! getting
      && count == |cache.Keys| + |getting|
      && (maxResource > 0 ==> count <= maxResource)
    }

    constructor (maxResource: int)
      ensures Valid()
      ensures this.maxResource == maxResource
      ensures cache == map[] && references == map[] && getting == {} && count == 0
    {
      this.maxResource := maxResource;
      cache, references, getting, count := map[], map[], {}, 0;
    }

    /** `get` up to the point where it either returns, throws or leaves the lock to load. */
    method BeginGet(key: int) returns (step: GetStep<T>)
      requires Valid()
      modifies this
      ensures Valid()
      ensures old(key in getting) ==> step == Wait && unchanged(this)
      ensures old(key !in getting && key in cache) ==>
        && step == Hit(old(cache[key]))
        && references == old(references)[key := old(references[key]) + 1]
        && cache == old(cache) && getting == old(getting) && count == old(count)
      ensures old(key !in getting && key !in cache && maxResource > 0 && count == maxResource) ==>
        step == Full && unchanged(this)
      ensures old(key !in getting && key !in cache && !(maxResource > 0 && count == maxResource)) ==>
        && step == Load
        && getting == old(getting) + {key} && count == old(count) + 1
        && cache == old(cache) && references == old(references)
    {
      if key in getting {
        return Wait;
      }
      if key in cache {
        references := references[key := references[key] + 1];
        return Hit(cache[key]);
      }
      if maxResource > 0 && count == maxResource {
        return Full;
      }
      count := count + 1;
      getting := getting + {key};
      step := Load;
    }

    /** `getForCache` returned `obj`: cache it with one reference. */
    method EndGet(key: int, obj: T)
      requires Valid() && key in getting
      modifies this
      ensures Valid()
      ensures getting == old(getting) - {key} && count == old(count)
      ensures cache == old(cache)[key := obj] && references == old(references)[key := 1]
    {
      getting := getting - {key};
      cache := cache[key := obj];
      references := references[key := 1];
    }

    /** `getForCache` threw: undo `count++` and the fetching mark. */
    method FailGet(key: int)
      requires Valid() && key in getting
      modifies this
      ensures Valid()
      ensures getting == old(getting) - {key} && count == old(count) - 1
      ensures cache == old(cache) && references == old(references)
    {
      count := count - 1;
      getting := getting - {key};
    }

    /**
     * The whole of `get` when no other caller is fetching `key` concurrently; `load` is what
     * `getForCache(key)` yields when it is called (it is called only on a miss).
     */
    method Get(key: int, load: Result<T>) returns (r: Result<T>)
      requires Valid()
      modifies this
      ensures Valid()
      ensures old(key in getting) ==> r == Err(Busy) && unchanged(this)
      ensures old(key !in getting && key in cache) ==>
        && r == Ok(old(cache[key]))
        && references == old(references)[key := old(references[key]) + 1]
        && cache == old(cache) && getting == old(getting) && count == old(count)
      ensures old(key !in getting && key !in cache && maxResource > 0 && count == maxResource) ==>
        r == Err(CacheFull) && unchanged(this)
      ensures old(key !in getting && key !in cache && !(maxResource > 0 && count == maxResource)) ==>
        && r == load
        && getting == old(getting)
        && (load.Ok? ==>
              && cache == old(cache)[key := load.value] && references == old(references)[key := 1]
              && count == old(count) + 1)
        && (load.Err? ==> cache == old(cache) && references == old(references) && count == old(count))
    {
      var step := BeginGet(key);
      match step {
        case Wait => r := Err(Busy);
        case Hit(obj) => r := Ok(obj);
        case Full => r := Err(CacheFull);
        case Load =>
          if load.Ok? {
            EndGet(key, load.value);
          } else {
            FailGet(key);
          }
          r := load;
      }
    }

    /**
     * Drops one reference; at zero the entry is evicted and returned, so that the caller runs
     * `releaseForCache` on it exactly once.
     */
    method Release(key: int) returns (evicted: Option<T>)
      requires Valid() && key in references
      modifies this
      ensures Valid()
      ensures getting == old(getting)
      ensures old(references[key]) == 1 ==>
        && evicted == Some(old(cache[key]))
        && cache == old(cache) - {key} && references == old(references) - {key}
        && count == old(count) - 1
      ensures old(references[key]) > 1 ==>
        && evicted == None
        && references == old(references)[key := old(references[key]) - 1]
        && cache == old(cache) && count == old(count)
    {
      var ref := references[key] - 1;
      if ref == 0 {
        evicted := Some(cache[key]);
        references := references - {key};
        cache := cache - {key};
        count := count - 1;
      } else {
        evicted := None;
        references := references[key := ref];
      }
    }

    /**
     * Evicts every cached entry whatever its reference count, in an arbitrary key order, and
     * returns the evicted objects in that order. `count` is left as it was.
     */
    method Close() returns (evicted: seq<T>, ghost order: seq<int>)
      requires Valid()
      modifies this
      ensures cache == map[] && references == map[]
      ensures getting == old(getting) && count == old(count)
      ensures |order| == |evicted|
      ensures forall i, j | 0 <= i < j < |order| :: order[i] != order[j]
      ensures forall k | k in old(cache) :: k in order
      ensures forall i | 0 <= i < |order| :: order[i] in old(cache) && evicted[i] == old(cache)[order[i]]
    {
      evicted, order := Drain(cache);
      cache, references := map[], map[];
    }
  }

  /** Takes every entry of `m` out, one arbitrary key at a time, in the order it was taken. */
  method Drain<T>(m: map<int, T>) returns (evicted: seq<T>, ghost order: seq<int>)
    ensures |order| == |evicted|
    ensures forall i, j | 0 <= i < j < |order| :: order[i] != order[j]
    ensures forall k | k in m :: k in order
    ensures forall i | 0 <= i < |order| :: order[i] in m && evicted[i] == m[order[i]]
  {
    var rest := m;
    evicted, order := [], [];
    while rest != map[]
      invariant forall k | k in rest :: k in m && rest[k] == m[k]
      invariant forall k | k in m :: k in rest || k in order
      invariant |order| == |evicted|
      invariant forall i | 0 <= i < |order| :: order[i] in m && order[i] !in rest && evicted[i] == m[order[i]]
      invariant forall i, j | 0 <= i < j < |order| :: order[i] != order[j]
      decreases |rest|
    {
      ghost var some := NonEmptyMapHasKey(rest);
      var key :| key in rest;
      evicted := evicted + [rest[key]];
      order := order + [key];
      rest := rest - {key};
    }
  }
}
