/** The generic bounded cache of cache/base/CacheImpl.kt.

    The Kotlin class holds `size` and one private insertion-ordered
    `mutableMapOf`; here that map is the pair of fields `order` (its keys,
    oldest first) and `entries` (its associations), which every method
    updates in place. `State()` reads both back as a `FifoCache.Fifo`, and
    each method is proved to move the state exactly as the matching function
    of module FifoCache says. */
module CacheBase {
  import opened Wrappers
  import opened CacheErrors
  import FifoCache

  class CacheImpl<K(==), T> {
    const size: int
    var order: seq<K>
    var entries: map<K, T>

    /** The cache invariant: a positive capacity, each key linked exactly
        once, and at most `size` entries. */
    ghost predicate Valid()
      reads this
    {
      1 <= size && FifoCache.Valid(State(), size)
    }

    function State(): FifoCache.Fifo<K, T>
      reads this
    {
      FifoCache.Fifo(order, entries)
    }

    /** A new, empty cache holding at most `size` entries. A capacity below 1
        is excluded: the first `put` into such a cache would ask an empty map
        for its first key. */
    constructor (size: int)
      requires 1 <= size
      ensures Valid() && this.size == size
      ensures State() == FifoCache.Empty()
    {
      this.size := size;
      order := [];
      entries := map[];
    }

    /** `get`: the value stored under `key`, or the cache miss error when
        there is none. The cache is not changed. */
    method Get(key: K) returns (r: Result<T, CacheError>)
      requires Valid()
      ensures r.Ok? <==> key in order
      ensures r.Ok? ==> key in entries && r.value == entries[key]
      ensures r.Err? ==> r.error == NotInCache()
      ensures r == FifoCache.Get(State(), key)
    {
      if key in entries {
        r := Ok(entries[key]);
      } else {
        r := Err(NotInCache());
      }
    }

    /** `put`: evict the oldest key when the cache is full and `key` is new,
        then store `value` under `key`. Always succeeds with `value`. */
    method Put(key: K, value: T) returns (r: Result<T, CacheError>)
      requires Valid()
      modifies this
      ensures Valid()
      ensures State() == FifoCache.Put(old(State()), size, key, value)
      ensures r == Ok(value)
    {
      ghost var before := State();
      FifoCache.CountIsLength(before);
      if |entries| >= size && key !in entries {
        var oldest := order[0];
        FifoCache.WithoutSplice(order, 0);
        entries := entries - {oldest};
        order := order[1..];
      }
      if key !in entries {
        order := order + [key];
      }
      entries := entries[key := value];
      r := Ok(value);
    }

    /** `remove`: take `key` out and return its value, or report the cache
        miss and change nothing. */
    method Remove(key: K) returns (r: Result<T, CacheError>)
      requires Valid()
      modifies this
      ensures Valid()
      ensures r == FifoCache.Get(old(State()), key)
      ensures State() == FifoCache.Remove(old(State()), key)
    {
      ghost var after := FifoCache.Remove(State(), key);
      if key in entries {
        r := Ok(entries[key]);
        order := FifoCache.Without(order, key);
        entries := entries - {key};
      } else {
        r := Err(NotInCache());
      }
    }

    /** `clear`: drop every entry; always succeeds. */
    method Clear() returns (r: Result<(), CacheError>)
      requires Valid()
      modifies this
      ensures Valid()
      ensures State() == FifoCache.Empty()
      ensures r == Ok(())
    {
      order := [];
      entries := map[];
      r := Ok(());
    }
  }
}
