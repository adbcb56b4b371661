/** Value-level specification of the bounded cache of cache/base/CacheImpl.kt.

    The Kotlin class keeps one `mutableMapOf`, a `LinkedHashMap` whose key
    iteration order is insertion order; replacing the value of a present key
    does not move it. Here that map is split into its two observable parts:
    `order`, the keys oldest first, and `entries`, the key-value association.
    Every function below gives the state after one operation; the class in
    CacheImpl.dfy is proved to follow them. */
module FifoCache {
  import opened Wrappers
  import opened CacheErrors

  datatype Fifo<K(==), T> = Fifo(order: seq<K>, entries: map<K, T>)

  function Elems<K>(s: seq<K>): set<K> {
    set x | x in s
  }

  predicate Distinct<K(==)>(s: seq<K>) {
    forall i, j | 0 <= i < j < |s| :: s[i] != s[j]
  }

  /** The order lists every key of the map exactly once. */
  predicate Wf<K(==), T>(c: Fifo<K, T>) {
    Distinct(c.order) && Elems(c.order) == c.entries.Keys
  }

  /** The cache invariant: well formed and holding at most `size` keys. */
  predicate Valid<K(==), T>(c: Fifo<K, T>, size: int) {
    Wf(c) && |c.order| <= size
  }

  function Empty<K(==), T>(): Fifo<K, T> {
    Fifo([], map[])
  }

  lemma TailDistinct<K>(s: seq<K>)
    requires Distinct(s) && s != []
    ensures Distinct(s[1..])
  {
    forall i, j | 0 <= i < j < |s[1..]| ensures s[1..][i] != s[1..][j] {
      assert s[1..][i] == s[i + 1] && s[1..][j] == s[j + 1];
    }
  }

  lemma HeadNotInTail<K>(s: seq<K>)
    requires Distinct(s) && s != []
    ensures s[0] !in Elems(s[1..])
  {
    forall j | 0 <= j < |s[1..]| ensures s[1..][j] != s[0] {
      assert s[1..][j] == s[j + 1];
    }
  }

  lemma {:induction false} DistinctCard<K>(s: seq<K>)
    requires Distinct(s)
    ensures |Elems(s)| == |s|
  {
    if s != [] {
      TailDistinct(s);
      DistinctCard(s[1..]);
      HeadNotInTail(s);
      assert Elems(s) == Elems(s[1..]) + {s[0]};
    }
  }

  /** The number of entries (`cache.size`) is the length of the key order. */
  lemma CountIsLength<K, T>(c: Fifo<K, T>)
    requires Wf(c)
    ensures |c.entries| == |c.order|
  {
    DistinctCard(c.order);
    assert c.entries.Keys == Elems(c.order);
  }

  /** `s` with the occurrences of `k` taken out and the rest kept in order:
      how the key order changes when `k` is unlinked from the map. */
  function Without<K(==)>(s: seq<K>, k: K): (r: seq<K>)
    ensures Elems(r) == Elems(s) - {k}
    ensures |r| <= |s|
  {
    if s == [] then []
    else
      assert Elems(s) == {s[0]} + Elems(s[1..]);
      if s[0] == k then Without(s[1..], k)
      else
        var t := Without(s[1..], k);
        assert Elems([s[0]] + t) == {s[0]} + Elems(t);
        [s[0]] + t
  }

  lemma {:induction false} WithoutDistinct<K>(s: seq<K>, k: K)
    requires Distinct(s)
    ensures Distinct(Without(s, k))
  {
    if s != [] {
      TailDistinct(s);
      WithoutDistinct(s[1..], k);
      if s[0] != k {
        HeadNotInTail(s);
        var t := Without(s[1..], k);
        forall i, j | 0 <= i < j < |[s[0]] + t| ensures ([s[0]] + t)[i] != ([s[0]] + t)[j] {
          if i == 0 {
            assert ([s[0]] + t)[j] == t[j - 1] && t[j - 1] in Elems(t);
          }
        }
      }
    }
  }

  lemma {:induction false} WithoutAbsent<K>(s: seq<K>, k: K)
    requires k !in s
    ensures Without(s, k) == s
  {
    if s != [] {
      WithoutAbsent(s[1..], k);
    }
  }

  /** Unlinking the key at position `i` of a duplicate-free order leaves the
      keys before and after it where they were. */
  lemma {:induction false} WithoutSplice<K>(s: seq<K>, i: nat)
    requires Distinct(s) && i < |s|
    ensures Without(s, s[i]) == s[..i] + s[i + 1..]
  {
    if i == 0 {
      HeadNotInTail(s);
      WithoutAbsent(s[1..], s[0]);
    } else {
      TailDistinct(s);
      assert s[1..][i - 1] == s[i];
      WithoutSplice(s[1..], i - 1);
      assert s[..i] + s[i + 1..] == [s[0]] + (s[1..][..i - 1] + s[1..][i..]);
    }
  }

  /** The result of `get(key)`: the value if the key is present, otherwise
      the cache miss error. Reading never changes the cache. */
  function Get<K(==), T>(c: Fifo<K, T>, key: K): Result<T, CacheError> {
    if key in c.entries then Ok(c.entries[key]) else Err(NotInCache())
  }

  /** The state after `remove(key)`: the key and its value are gone and
      nothing else changes. An absent key leaves the state as it was. */
  function Remove<K(==), T>(c: Fifo<K, T>, key: K): (r: Fifo<K, T>)
    requires Wf(c)
    ensures Wf(r)
    ensures r.entries.Keys == c.entries.Keys - {key}
    ensures forall k | k in r.entries :: r.entries[k] == c.entries[k]
    ensures |r.order| <= |c.order|
  {
    WithoutDistinct(c.order, key);
    if key in c.entries then Fifo(Without(c.order, key), c.entries - {key}) else c
  }

  /** `cache.remove(cache.keys.first())`: drops exactly the oldest key. */
  function EvictOldest<K(==), T>(c: Fifo<K, T>): (r: Fifo<K, T>)
    requires Wf(c) && |c.order| > 0
    ensures Wf(r)
    ensures r.order == c.order[1..]
    ensures r.entries == c.entries - {c.order[0]}
  {
    WithoutSplice(c.order, 0);
    Remove(c, c.order[0])
  }

  /** Whether `put(key, _)` evicts first: the map already holds `size`
      entries or more and `key` is not one of them. */
  predicate Evicts<K(==), T>(c: Fifo<K, T>, size: int, key: K) {
    |c.entries| >= size && !(key in c.entries)
  }

  /** Associate `key` with `value` without evicting: a new key is linked
      last, a present key keeps its place. */
  function Insert<K(==), T>(c: Fifo<K, T>, key: K, value: T): (r: Fifo<K, T>)
    requires Wf(c)
    ensures Wf(r)
    ensures r.entries == c.entries[key := value]
    ensures key in c.entries ==> r.order == c.order
    ensures key !in c.entries ==> r.order == c.order + [key]
  {
    if key in c.entries then Fifo(c.order, c.entries[key := value])
    else
      assert Elems(c.order + [key]) == Elems(c.order) + {key};
      Fifo(c.order + [key], c.entries[key := value])
  }

  /** The state after `put(key, value)`: evict the oldest key when
      `Evicts` holds, then associate `key` with `value`, linking a new key
      last and leaving a present key where it was. */
  function Put<K(==), T>(c: Fifo<K, T>, size: int, key: K, value: T): (r: Fifo<K, T>)
    requires 1 <= size && Valid(c, size)
    ensures Valid(r, size) && |r.entries| <= size
    ensures key in r.entries && r.entries[key] == value
    ensures forall k | k in r.entries :: k == key || k in c.entries
    ensures forall k | k in r.entries && k != key :: r.entries[k] == c.entries[k]
  {
    CountIsLength(c);
    var kept := if Evicts(c, size, key) then EvictOldest(c) else c;
    var r := Insert(kept, key, value);
    CountIsLength(r);
    r
  }

  /** Putting a present key replaces its value, keeps its place in the
      insertion order and evicts nothing. */
  lemma PutReplace<K, T>(c: Fifo<K, T>, size: int, key: K, value: T)
    requires 1 <= size && Valid(c, size)
    requires key in c.entries
    ensures Put(c, size, key, value).order == c.order
    ensures Put(c, size, key, value).entries == c.entries[key := value]
  {
  }

  /** Putting a new key into a full cache evicts exactly the oldest key and
      links the new key last; every other entry is untouched. */
  lemma PutEvictsOldest<K, T>(c: Fifo<K, T>, size: int, key: K, value: T)
    requires 1 <= size && Valid(c, size)
    requires key !in c.entries && |c.order| >= size
    ensures |c.order| > 0
    ensures Put(c, size, key, value).order == c.order[1..] + [key]
    ensures Put(c, size, key, value).entries == (c.entries - {c.order[0]})[key := value]
  {
    CountIsLength(c);
  }

  /** Putting a new key into a cache that is not full evicts nothing and
      links the new key last. */
  lemma PutAppends<K, T>(c: Fifo<K, T>, size: int, key: K, value: T)
    requires 1 <= size && Valid(c, size)
    requires key !in c.entries && |c.order| < size
    ensures Put(c, size, key, value).order == c.order + [key]
    ensures Put(c, size, key, value).entries == c.entries[key := value]
  {
    CountIsLength(c);
  }

  /** A `get` straight after `put(key, value)` returns `value`. */
  lemma PutThenGet<K, T>(c: Fifo<K, T>, size: int, key: K, value: T)
    requires 1 <= size && Valid(c, size)
    ensures Get(Put(c, size, key, value), key) == Ok(value)
  {
  }

  /** Removing the key at position `i` deletes only that key and keeps the
      order of the others; removing an absent key changes nothing. */
  lemma RemovePresent<K, T>(c: Fifo<K, T>, i: nat)
    requires Wf(c) && i < |c.order|
    ensures Remove(c, c.order[i]).order == c.order[..i] + c.order[i + 1..]
    ensures Remove(c, c.order[i]).entries == c.entries - {c.order[i]}
  {
    WithoutSplice(c.order, i);
  }

  lemma RemoveAbsent<K, T>(c: Fifo<K, T>, key: K)
    requires Wf(c) && key !in c.entries
    ensures Remove(c, key) == c
    ensures Get(c, key) == Err(NotInCache())
  {
  }

  /** The same for a key given by value: wherever it sits in the order, it
      is spliced out, and the entries lose exactly that key. */
  lemma RemoveSplices<K, T>(c: Fifo<K, T>, key: K)
    requires Wf(c)
    ensures Remove(c, key).entries == c.entries - {key}
    ensures forall i | 0 <= i < |c.order| && c.order[i] == key ::
      Remove(c, key).order == c.order[..i] + c.order[i + 1..]
  {
    forall i | 0 <= i < |c.order| && c.order[i] == key
      ensures Remove(c, key).order == c.order[..i] + c.order[i + 1..]
    {
      RemovePresent(c, i);
    }
  }

  /** After `remove(key)` the key is gone, whether or not it was there. */
  lemma RemoveThenGet<K, T>(c: Fifo<K, T>, key: K)
    requires Wf(c)
    ensures Get(Remove(c, key), key) == Err(NotInCache())
  {
  }

  // ----- Sequences of puts -----

  /** The keys of `kvs`, in order. */
  function Keys<K, T>(kvs: seq<(K, T)>): (ks: seq<K>)
    ensures |ks| == |kvs|
    ensures forall i | 0 <= i < |kvs| :: ks[i] == kvs[i].0
  {
    if kvs == [] then [] else [kvs[0].0] + Keys(kvs[1..])
  }

  /** The state after putting each pair of `kvs` in turn. */
  function PutAll<K(==), T>(c: Fifo<K, T>, size: int, kvs: seq<(K, T)>): (r: Fifo<K, T>)
    requires 1 <= size && Valid(c, size)
    ensures Valid(r, size) && |r.entries| <= size
    decreases |kvs|
  {
    if kvs == [] then
      CountIsLength(c);
      c
    else
      PutAll(Put(c, size, kvs[0].0, kvs[0].1), size, kvs[1..])
  }

  /** The last `n` elements of `s`, or all of `s` when it is shorter. */
  function Newest<K>(s: seq<K>, n: nat): seq<K> {
    if |s| <= n then s else s[|s| - n..]
  }

  lemma NewestAppend<K>(s: seq<K>, t: seq<K>, n: nat)
    ensures Newest(Newest(s, n) + t, n) == Newest(s + t, n)
  {
    if |s| > n && t != [] {
      var u := s[|s| - n..];
      var w, v := (u + t)[|t|..], (s + t)[|s + t| - n..];
      assert Newest(u + t, n) == w;
      assert w == v by {
        forall i | 0 <= i < n ensures w[i] == v[i] {
          if |t| + i < n {
            assert w[i] == u[|t| + i] == s[|s| - n + |t| + i];
          }
        }
      }
    }
  }

  /** One new key: the order becomes the newest `size` keys of the old order
      followed by the new key. */
  lemma PutFreshOrder<K, T>(c: Fifo<K, T>, size: int, key: K, value: T)
    requires 1 <= size && Valid(c, size)
    requires key !in c.entries
    ensures Put(c, size, key, value).order == Newest(c.order + [key], size)
  {
    CountIsLength(c);
    if |c.order| >= size {
      assert (c.order + [key])[|c.order| + 1 - size..] == c.order[1..] + [key];
    }
  }

  /** Keys that were neither in the cache nor the key just put are still
      absent afterwards: a put adds no key but its own. */
  lemma FreshAfterPut<K, T>(c: Fifo<K, T>, size: int, key: K, value: T, rest: seq<(K, T)>)
    requires 1 <= size && Valid(c, size)
    requires forall i | 0 <= i < |rest| :: rest[i].0 !in c.entries && rest[i].0 != key
    ensures forall i | 0 <= i < |rest| :: rest[i].0 !in Put(c, size, key, value).entries
  {
  }

  /** Splitting distinct fresh keys into the first and the rest. */
  lemma SplitFresh<K, T>(c: Fifo<K, T>, kvs: seq<(K, T)>)
    requires kvs != [] && Distinct(Keys(kvs))
    requires forall i | 0 <= i < |kvs| :: kvs[i].0 !in c.entries
    ensures Keys(kvs) == [kvs[0].0] + Keys(kvs[1..])
    ensures Distinct(Keys(kvs[1..]))
    ensures forall i | 0 <= i < |kvs[1..]| :: kvs[1..][i].0 !in c.entries && kvs[1..][i].0 != kvs[0].0
  {
    var rest := kvs[1..];
    TailDistinct(Keys(kvs));
    HeadNotInTail(Keys(kvs));
    forall i | 0 <= i < |rest| ensures rest[i].0 !in c.entries && rest[i].0 != kvs[0].0 {
      assert rest[i] == kvs[i + 1];
      assert rest[i].0 == Keys(rest)[i] && Keys(rest)[i] in Elems(Keys(rest));
    }
  }

  /** FIFO eviction: putting distinct new keys leaves, in insertion order,
      exactly the newest `size` keys of the old order followed by the new
      ones. Nothing is ever evicted out of insertion order. */
  lemma {:induction false} PutAllFreshOrder<K, T>(c: Fifo<K, T>, size: int, kvs: seq<(K, T)>)
    requires 1 <= size && Valid(c, size)
    requires Distinct(Keys(kvs))
    requires forall i | 0 <= i < |kvs| :: kvs[i].0 !in c.entries
    ensures PutAll(c, size, kvs).order == Newest(c.order + Keys(kvs), size)
    decreases |kvs|
  {
    if kvs == [] {
      assert c.order + Keys(kvs) == c.order;
    } else {
      var key, value, rest := kvs[0].0, kvs[0].1, kvs[1..];
      var c' := Put(c, size, key, value);
      SplitFresh(c, kvs);
      assert c'.order == Newest(c.order + [key], size) by {
        PutFreshOrder(c, size, key, value);
      }
      assert PutAll(c', size, rest).order == Newest(c'.order + Keys(rest), size) by {
        FreshAfterPut(c, size, key, value, rest);
        PutAllFreshOrder(c', size, rest);
      }
      NewestCompose(c.order, key, Keys(rest), Keys(kvs), c'.order, PutAll(c', size, rest).order, size);
    }
  }

  lemma NewestCompose<K>(s: seq<K>, key: K, t: seq<K>, keys: seq<K>, s': seq<K>, r: seq<K>, n: nat)
    requires keys == [key] + t
    requires s' == Newest(s + [key], n)
    requires r == Newest(s' + t, n)
    ensures r == Newest(s + keys, n)
  {
    NewestAppend(s + [key], t, n);
    assert s + [key] + t == s + keys;
  }

  /** Putting `size + 1` distinct keys into an empty cache of capacity
      `size` evicts the first one and keeps all the others. */
  lemma FirstInsertedIsEvicted<K, T>(size: int, kvs: seq<(K, T)>)
    requires 1 <= size && |kvs| == size + 1 && Distinct(Keys(kvs))
    ensures Get(PutAll(Empty(), size, kvs), kvs[0].0) == Err(NotInCache())
    ensures forall i | 1 <= i < |kvs| :: kvs[i].0 in PutAll(Empty(), size, kvs).entries
  {
    var e: Fifo<K, T> := Empty();
    var r := PutAll(e, size, kvs);
    var ks := Keys(kvs);
    assert r.order == ks[1..] by {
      PutAllFreshOrder(e, size, kvs);
      assert e.order + ks == ks;
    }
    assert kvs[0].0 !in r.entries by {
      HeadNotInTail(ks);
    }
    forall i | 1 <= i < |kvs| ensures kvs[i].0 in r.entries {
      assert r.order[i - 1] == kvs[i].0;
      assert kvs[i].0 in Elems(r.order);
    }
  }
}
