# Estudiantes-Koin: bounded cache and student service, in Dafny

This project models the core of the Kotlin application Estudiantes-Koin. The
application keeps student records (`Estudiante`: id, name, mark, two
timestamps, soft-delete flag) in a store, validates them, and mirrors written
records in a small bounded cache. Three parts are modelled:

- **The generic cache** `CacheImpl<K, T>`. It is a fixed-capacity map that
  remembers insertion order, like Kotlin's `mutableMapOf`. When `put` brings a
  new key into a full cache, it evicts the oldest key first. Putting a key
  that is already present replaces its value in place.
  - `FifoCache.dfy` states the cache's behaviour as functions over a value
    `Fifo(order, entries)` and proves its properties.
  - `CacheImpl.dfy` is the class itself. Its fields are updated in place, and
    each method is proved to move the state exactly as the matching function
    says.
  - `EstudianteCache.dfy` names this class at keys `int` and values
    `Estudiante`, as the student cache.
- **The validator** `EstudianteValidator.validate`. It checks the name first
  (it must not be blank), then the mark (it must be positive). A record that
  passes both comes back unchanged.
- **The service** `EstudianteServiceImpl`.
  - Reads go straight to the store.
  - `create` and `update` validate, then write the store, then `put` into the
    cache.
  - `delete` marks the stored row deleted and only then removes the id from
    the cache.
  - `CreateOutcome`, `UpdateOutcome` and `DeleteOutcome` say what one call
    does to the store and the cache. The class `EstudianteServiceImpl` holds
    the store and a cache object and performs the calls in place.

The store is the null-returning contract of `CrudRepository`, made concrete as
a map from id to row, soft-deleted rows included, plus the next id to hand
out. It follows what `EstudianteRepositoryImpl` does:
- `save` ignores the candidate's id and timestamps.
- `update` copies the candidate's name, mark and deletion flag.
- `delete` marks the row and stamps it.
- Reads return only rows that are not marked deleted.

Timestamps come from a clock in the source. Here the clock is not modelled:
every operation that stamps a record takes the moment `now` as a parameter.

## Model

| member | source | states |
|---|---|---|
| FifoCache.Remove | EstudianteKoin/src/main/kotlin/cache/base/CacheImpl.kt:59-66 | removing a key keeps the cache well formed, takes exactly that key out of the key set, and leaves every other value and the bound on the count as they were |
| FifoCache.EvictOldest | EstudianteKoin/src/main/kotlin/cache/base/CacheImpl.kt:48 | removing `keys.first()` drops exactly the oldest key: the order loses its head and the entries lose that key |
| FifoCache.Insert | EstudianteKoin/src/main/kotlin/cache/base/CacheImpl.kt:50 | `cache[key] = value` maps key to value; a new key is linked at the end of the order, and a present key leaves the order exactly as it was |
| FifoCache.Put | EstudianteKoin/src/main/kotlin/cache/base/CacheImpl.kt:44-52 | with capacity at least 1 and the bound holding before, the bound holds after; `key` maps to `value`; no key but `key` is added; every other surviving value is unchanged |
| FifoCache.PutReplace | EstudianteKoin/src/main/kotlin/cache/base/CacheImpl.kt:46-50 | putting a present key keeps the insertion order as it was and only replaces that key's value, evicting nothing |
| FifoCache.PutEvictsOldest | EstudianteKoin/src/main/kotlin/cache/base/CacheImpl.kt:46-50 | putting a new key into a full cache evicts exactly the oldest key, appends the new key last, and leaves all other entries untouched |
| FifoCache.PutAppends | EstudianteKoin/src/main/kotlin/cache/base/CacheImpl.kt:46-50 | putting a new key into a cache with room evicts nothing and appends the key last |
| FifoCache.PutThenGet | EstudianteKoin/src/main/kotlin/cache/base/CacheImpl.kt:50-51 | a `get` straight after `put(key, value)` returns `Ok(value)` |
| FifoCache.RemovePresent | EstudianteKoin/src/main/kotlin/cache/base/CacheImpl.kt:61-62 | removing the key at any position deletes only that key and keeps the order of the keys before and after it |
| FifoCache.RemoveAbsent | EstudianteKoin/src/main/kotlin/cache/base/CacheImpl.kt:63-64 | removing an absent key changes nothing, and the answer is the cache-miss error |
| FifoCache.RemoveSplices | EstudianteKoin/src/main/kotlin/cache/base/CacheImpl.kt:59-66 | removing a key by value takes exactly that key out of the entries and, wherever it sits in the order, splices it out and keeps the other keys in place |
| FifoCache.RemoveThenGet | EstudianteKoin/src/main/kotlin/cache/base/CacheImpl.kt:59-66 | after `remove(key)`, `get(key)` reports the miss, whether or not the key was there |
| FifoCache.Without | EstudianteKoin/src/main/kotlin/cache/base/CacheImpl.kt:62 | unlinking a key from the order leaves exactly the other keys and never lengthens it |
| FifoCache.WithoutSplice | EstudianteKoin/src/main/kotlin/cache/base/CacheImpl.kt:62 | in a duplicate-free order, unlinking the key at position i leaves the keys before and after it in place |
| FifoCache.DistinctCard | EstudianteKoin/src/main/kotlin/cache/base/CacheImpl.kt:21 | a duplicate-free key order has as many distinct keys as elements |
| FifoCache.CountIsLength | EstudianteKoin/src/main/kotlin/cache/base/CacheImpl.kt:46 | the map's `size`, which `put` tests, equals the length of the key order |
| FifoCache.PutFreshOrder | EstudianteKoin/src/main/kotlin/cache/base/CacheImpl.kt:46-50 | after one new key, the order is the last `size` keys of the old order with that key appended, so at most the oldest key leaves |
| FifoCache.PutAllFreshOrder | EstudianteKoin/src/main/kotlin/cache/base/CacheImpl.kt:44-52 | after any run of distinct new keys, the order is exactly the last `size` keys of the old order followed by the new ones, so nothing leaves out of insertion order |
| FifoCache.FirstInsertedIsEvicted | EstudianteKoin/src/main/kotlin/cache/base/CacheImpl.kt:46-48 | putting `size + 1` distinct keys into an empty cache evicts the first key and keeps every other one |
| CacheBase.CacheImpl.constructor | EstudianteKoin/src/main/kotlin/cache/base/CacheImpl.kt:18-21 | a new cache of capacity at least 1 is empty and satisfies the invariant |
| CacheBase.CacheImpl.Get | EstudianteKoin/src/main/kotlin/cache/base/CacheImpl.kt:28-35 | `Ok(v)` exactly when the key is present with value v, otherwise the miss error; the cache is not modified |
| CacheBase.CacheImpl.Put | EstudianteKoin/src/main/kotlin/cache/base/CacheImpl.kt:44-52 | keeps the invariant, moves the state exactly as `FifoCache.Put`, and returns `Ok(value)` |
| CacheBase.CacheImpl.Remove | EstudianteKoin/src/main/kotlin/cache/base/CacheImpl.kt:59-66 | returns what `get` returned before, and moves the state exactly as `FifoCache.Remove` |
| CacheBase.CacheImpl.Clear | EstudianteKoin/src/main/kotlin/cache/base/CacheImpl.kt:72-76 | leaves the cache empty and valid, and returns `Ok(())` |
| Validators.Validate | EstudianteKoin/src/main/kotlin/Estudiante/validators/EstudianteValidator.kt:17-23 | `Ok` exactly when the name has a non-whitespace character and the mark is positive, and then the input comes back unchanged; a blank name gets the name error whatever the mark; a non-blank name with a mark of 0 or less gets the mark error |
| Repositories.FindById | EstudianteKoin/src/main/kotlin/Estudiante/repositories/EstudianteRepositoryImpl.kt:59-64 | returns something exactly when a row is stored under the id and is not marked deleted, and then returns that very row; absence is the `null` of CrudRepository |
| Repositories.FindByIdAgreesWithFindAll | EstudianteKoin/src/main/kotlin/Estudiante/repositories/CrudRepository.kt:11-22 | in a well-formed store, what `findById(id)` finds carries the id `id` and is listed by `findAll`; when it finds nothing, no listed record has that id |
| Repositories.LiveFrom | EstudianteKoin/src/main/kotlin/Estudiante/repositories/EstudianteRepositoryImpl.kt:47-52 | the listed records are exactly those `findById` returns, with strictly increasing ids |
| Repositories.FindAll | EstudianteKoin/src/main/kotlin/Estudiante/repositories/EstudianteRepositoryImpl.kt:47-52 | lists exactly the records `findById` returns, each once, in increasing id order |
| Repositories.WithCalificacion | EstudianteKoin/src/main/kotlin/Estudiante/repositories/EstudianteRepositoryImpl.kt:36-41 | keeps exactly the records whose mark equals the one asked for |
| Repositories.WithCalificacionAscending | EstudianteKoin/src/main/kotlin/Estudiante/repositories/EstudianteRepositoryImpl.kt:36-41 | filtering keeps the order: a list with strictly increasing ids filters to one with strictly increasing ids |
| Repositories.FindByCalificacion | EstudianteKoin/src/main/kotlin/Estudiante/repositories/EstudianteRepositoryImpl.kt:36-41 | lists exactly the live records with that mark, each once, in increasing id order |
| Repositories.Save | EstudianteKoin/src/main/kotlin/Estudiante/repositories/EstudianteRepositoryImpl.kt:71-86 | inserts under a fresh id a live row with the candidate's name and mark, changes no other row, and `findById` then returns it |
| Repositories.Update | EstudianteKoin/src/main/kotlin/Estudiante/repositories/CrudRepository.kt:31-37 | absent exactly when `findById(id)` is, with the store unchanged; otherwise the row under `id` takes the candidate's name, mark and deletion flag and the new time, keeping its id and creation time |
| Repositories.UpdateAsWritten | EstudianteKoin/src/main/kotlin/Estudiante/repositories/EstudianteRepositoryImpl.kt:94-114 | returns the same record as `Update` and keeps the set of ids and the next id; on success the row under the candidate's own id `e.id`, if any, takes the new name, mark, deletion flag and time, every other row is left as it was, and so the row under `id` stays untouched when `e.id` differs from `id` |
| Repositories.Delete | EstudianteKoin/src/main/kotlin/Estudiante/repositories/EstudianteRepositoryImpl.kt:121-134 | absent exactly when `findById(id)` is, with the store unchanged; otherwise the row is kept but marked deleted and stamped, and `findById(id)` is absent afterwards |
| Services.CreateOutcome | EstudianteKoin/src/main/kotlin/Estudiante/services/EstudianteServiceImpl.kt:68-76 | `Ok` exactly when validation passes; an invalid candidate gets the validator's error with store and cache unchanged; a valid one is saved under a fresh id and the cache then maps that id to the saved record; coherence of cache and store is preserved |
| Services.UpdateOutcome | EstudianteKoin/src/main/kotlin/Estudiante/services/EstudianteServiceImpl.kt:84-93 | the validation error first, then `EstudianteNoActualizado(id)` when the store does not find `id`, both with store and cache unchanged; on success the row under `id` is the returned record and the cache maps the parameter `id` to it; the next id never changes; a cached `id` keeps its place in the order, and an uncached one is appended and only the last `size` keys of the result are kept (one FIFO eviction at most); every other surviving cache entry keeps its value; coherence is preserved |
| Services.DeleteOutcome | EstudianteKoin/src/main/kotlin/Estudiante/services/EstudianteServiceImpl.kt:100-108 | `EstudianteNoEliminado(id)` with nothing changed exactly when the store does not find `id`; on success the marked row is returned, the cache loses exactly the entry for `id` (unchanged when it never held it), and the other keys keep their order around the gap; the next id never changes; coherence is preserved |
| Services.CachedAgreesWithStore | EstudianteKoin/src/main/kotlin/Estudiante/services/EstudianteServiceImpl.kt:56-61 | when cache and store are coherent, a cached live record is exactly what the store's `findById` returns, so reads that skip the cache lose nothing |
| Services.CreateKeepsRowsAcceptable | EstudianteKoin/src/main/kotlin/Estudiante/services/EstudianteServiceImpl.kt:70-71 | only validated records reach the store through `create` |
| Services.UpdateKeepsRowsAcceptable | EstudianteKoin/src/main/kotlin/Estudiante/services/EstudianteServiceImpl.kt:86-87 | only validated names and marks reach the store through `update` |
| Services.DeleteKeepsRowsAcceptable | EstudianteKoin/src/main/kotlin/Estudiante/services/EstudianteServiceImpl.kt:102 | a delete only marks an existing row, so every row stays acceptable |
| Services.CreateSavesThenCaches | EstudianteKoin/src/main/kotlin/Estudiante/services/EstudianteServiceImpl.kt:70-75 | a valid create stores the candidate's name and mark under the next id and puts exactly that record into the cache under that id |
| Services.CreateWhenFull | EstudianteKoin/src/main/kotlin/Estudiante/services/EstudianteServiceImpl.kt:72-75 | a valid create into a full cache stores the record under the next id, evicts the oldest cached id and caches the new record last; the resulting store and cache are named in the requires |
| Services.CreateWithRoomGives | EstudianteKoin/src/main/kotlin/Estudiante/services/EstudianteServiceImpl.kt:72-75 | a valid create into a cache with room appends the new id and evicts nothing |
| Services.FirstCreate | EstudianteKoin/src/main/kotlin/Estudiante/services/EstudianteServiceImpl.kt:68-76 | the first create into an empty store with a capacity-2 cache yields the listed store and cache |
| Services.SecondCreate | EstudianteKoin/src/main/kotlin/Estudiante/services/EstudianteServiceImpl.kt:68-76 | the second create fills the cache without evicting |
| Services.ThirdCreate | EstudianteKoin/src/main/kotlin/Estudiante/services/EstudianteServiceImpl.kt:68-76 | the third create evicts the first id from the cache and keeps the second and third |
| Services.ThreeCreatesEvictTheFirst | EstudianteKoin/src/main/kotlin/Estudiante/services/EstudianteServiceImpl.kt:68-76 | three valid creates get consecutive ids; the first one's cache entry is evicted while the store still returns that record |
| Services.UpdateAsWrittenBreaksCoherence | EstudianteKoin/src/main/kotlin/Estudiante/repositories/EstudianteRepositoryImpl.kt:106-112 | with the store update as written, a candidate whose id differs from `id` leaves the cache holding a record the store does not hold |
| Services.EstudianteServiceImpl.constructor | EstudianteKoin/src/main/kotlin/Estudiante/services/EstudianteServiceImpl.kt:21-25 | the service keeps the store and the very cache object it is given |
| Services.EstudianteServiceImpl.GetAll | EstudianteKoin/src/main/kotlin/Estudiante/services/EstudianteServiceImpl.kt:36-39 | always `Ok`, listing exactly the records the store's `findById` returns, each once, in increasing id order, as `findAll` does; it reads only the service's own fields, never the cache |
| Services.EstudianteServiceImpl.GetByCalificacion | EstudianteKoin/src/main/kotlin/Estudiante/services/EstudianteServiceImpl.kt:46-49 | always `Ok`, listing exactly the live records with that mark, each once, in increasing id order, as `findByCalificacion` does; it never reads the cache |
| Services.EstudianteServiceImpl.FindById | EstudianteKoin/src/main/kotlin/Estudiante/services/EstudianteServiceImpl.kt:56-61 | `EstudianteNoEncontrado` with the id in its message exactly when the store returns absent, otherwise the store's record; it never reads the cache |
| Services.EstudianteServiceImpl.Create | EstudianteKoin/src/main/kotlin/Estudiante/services/EstudianteServiceImpl.kt:68-76 | updates store, cache and result exactly as `CreateOutcome`, keeps both structures valid, and keeps a coherent cache coherent |
| Services.EstudianteServiceImpl.Update | EstudianteKoin/src/main/kotlin/Estudiante/services/EstudianteServiceImpl.kt:84-93 | updates store, cache and result exactly as `UpdateOutcome`, keeps both structures valid, and keeps a coherent cache coherent |
| Services.EstudianteServiceImpl.Delete | EstudianteKoin/src/main/kotlin/Estudiante/services/EstudianteServiceImpl.kt:100-108 | updates store, cache and result exactly as `DeleteOutcome`, and discards the cache's answer to `remove` |

## Findings

| source | as written | input that shows it | evidently intended | confidence | as-written member | corrected member |
|---|---|---|---|---|---|---|
| EstudianteKoin/src/main/kotlin/Estudiante/repositories/EstudianteRepositoryImpl.kt:111 | `update(id, e)` finds the row under `id` but writes the new fields under `e.id` | a store holding row 1 named "Ana"; `update(1, e)` with `e.id = 2` and the name "Eva": the service caches "Eva" under 1 while row 1 still says "Ana" | write under the `id` parameter, the row that `findById(id)` found | high, by reading; not executed | Services.UpdateAsWrittenBreaksCoherence | Repositories.Update |

## Left out

- Persistence: the SQL schema, the queries and the driver are not part of this model. The store is a map with soft-delete. The queries behind `findAll`, `findById` and `findByCalificacion` are not visible, so the model assumes they hide soft-deleted rows. It also assumes that `findAll` and `findByCalificacion` list records in increasing id order.
- Repositories.UpdateAsWritten is not used by the service model. The service model uses the corrected `Repositories.Update`, as the Findings table says.
- The clock: `LocalDateTime.now()` becomes the `now` parameter. No operation compares timestamps.
- Configuration, dependency injection, the controller, the application runner, the row mapper and the demo data are not modelled. They are wiring, file I/O, printing or seed data.
- Logging and `println` have no effect on behaviour and are left out.
- Validators.Validate: blankness follows the whitespace set of JVMs on Unicode 6.3 or later. On Java 8, U+180E also counts as whitespace, and that is not modelled.
- `calificacion` is a `Double` in the source and `real` here. NaN and rounding are not modelled. The only operations on it are `<= 0` and equality.
- Ids are `Long` in the source and unbounded `int` here. Overflow of the id counter is not modelled.
- Concurrency: there is none in the source and none here.
- Services.EstudianteServiceImpl.Update: like the source, it copies the candidate's deletion flag. The cache may therefore hold a record marked deleted. `CachedAgreesWithStore` covers only live cached records.
- CacheBase.CacheImpl.constructor: requires capacity at least 1, which the source does not check. With capacity 0, the first `put` of a new key would ask an empty map for its first key.
- The `toString` members of the service and repository are not modelled.
- Store failures: in the model every store call succeeds. In the source a driver exception, for example from `executeAsOne` (EstudianteRepositoryImpl.kt:84), propagates out of `create`, `update` and `delete` before the cache is touched (EstudianteServiceImpl.kt:71, 87, 102). Exceptions are not modelled.
- Repositories.Save: the inserted row is not deleted only by assumption. The insert (EstudianteRepositoryImpl.kt:76-81) does not set `is_deleted`, so the column's default decides, and the table definition is not part of this model.
- FifoCache.Remove: values cannot be null in the model. In the source, when `T` is nullable and a key is mapped to `null`, `remove` throws a NullPointerException at the `!!` (CacheImpl.kt:62). That case is not modelled.
