/** `EstudianteServiceImpl` of Estudiante/services/EstudianteServiceImpl.kt.

    Reads go straight to the store. `create` and `update` chain
    validate, then the store, then `put` into the cache; `delete` asks the
    store first and only on success removes the id from the cache. The
    functions `CreateOutcome`, `UpdateOutcome` and `DeleteOutcome` give what
    one call does to the store and the cache, the lemmas after them what
    that means, and the class at the end performs the calls in place. */
module Services {
  import opened Wrappers
  import opened Models
  import opened Errors
  import opened Validators
  import opened Repositories
  import FifoCache
  import CacheErrors
  import opened EstudianteCaches

  type CacheState = FifoCache.Fifo<int, Estudiante>

  /** Every cached record is the store's current row under the same id. */
  predicate Coherent(s: Store, c: CacheState) {
    forall id | id in c.entries :: id in s.rows && c.entries[id] == s.rows[id]
  }

  /** The structural invariants of the two parts: a well-formed store and
      a cache within its capacity. */
  predicate WellFormed(s: Store, c: CacheState, size: int) {
    StoreValid(s) && 1 <= size && FifoCache.Valid(c, size)
  }

  /** Every row of the store passes the validator. */
  predicate AllAcceptable(s: Store) {
    forall id | id in s.rows :: Acceptable(s.rows[id])
  }

  datatype Outcome = Outcome(store: Store, cache: CacheState, result: Result<Estudiante, EstudianteError>)

  /** `create(e)` at time `now`. */
  function CreateOutcome(s: Store, c: CacheState, size: int, e: Estudiante, now: Timestamp): (o: Outcome)
    requires WellFormed(s, c, size)
    ensures WellFormed(o.store, o.cache, size)
    ensures Coherent(s, c) ==> Coherent(o.store, o.cache)
    ensures o.result.Ok? <==> Validate(e).Ok?
    ensures o.result.Err? ==> o.result == Validate(e) && o.store == s && o.cache == c
    ensures o.result.Ok? ==>
      var saved := o.result.value;
      saved.id !in s.rows && saved.nombre == e.nombre && saved.calificacion == e.calificacion
      && FindById(o.store, saved.id) == Some(saved)
      && FifoCache.Get(o.cache, saved.id) == Ok(saved)
  {
    match Validate(e)
    case Err(err) => Outcome(s, c, Err(err))
    case Ok(valid) =>
      var (s', saved) := Save(s, valid, now);
      Outcome(s', FifoCache.Put(c, size, saved.id, saved), Ok(saved))
  }

  /** `update(id, e)` at time `now`. */
  function UpdateOutcome(s: Store, c: CacheState, size: int, id: int, e: Estudiante, now: Timestamp): (o: Outcome)
    requires WellFormed(s, c, size)
    ensures WellFormed(o.store, o.cache, size)
    ensures Coherent(s, c) ==> Coherent(o.store, o.cache)
    ensures Validate(e).Err? ==> o.result == Validate(e)
    ensures Validate(e).Ok? && FindById(s, id).None? ==> o.result == Err(NoActualizado(id))
    ensures o.result.Ok? <==> Validate(e).Ok? && FindById(s, id).Some?
    ensures o.result.Err? ==> o.store == s && o.cache == c
    ensures o.result.Ok? ==>
      var u := o.result.value;
      u.id == id && u.nombre == e.nombre && u.calificacion == e.calificacion
      && o.store.rows == s.rows[id := u]
      && FifoCache.Get(o.cache, id) == Ok(u)
    ensures o.store.nextId == s.nextId
    ensures o.result.Ok? && id in c.entries ==>
      o.cache.order == c.order && o.cache.entries == c.entries[id := o.result.value]
    ensures o.result.Ok? && id !in c.entries ==> o.cache.order == FifoCache.Newest(c.order + [id], size)
    ensures forall k | k in o.cache.entries && k != id :: k in c.entries && o.cache.entries[k] == c.entries[k]
  {
    match Validate(e)
    case Err(err) => Outcome(s, c, Err(err))
    case Ok(valid) =>
      var (s', updated) := Repositories.Update(s, id, valid, now);
      match updated
      case None => Outcome(s', c, Err(NoActualizado(id)))
      case Some(u) =>
        if id in c.entries then
          FifoCache.PutReplace(c, size, id, u);
          Outcome(s', FifoCache.Put(c, size, id, u), Ok(u))
        else
          FifoCache.PutFreshOrder(c, size, id, u);
          Outcome(s', FifoCache.Put(c, size, id, u), Ok(u))
  }

  /** `delete(id)` at time `now`. The cache's answer to `remove` is
      discarded: a miss there is not an error. */
  function DeleteOutcome(s: Store, c: CacheState, size: int, id: int, now: Timestamp): (o: Outcome)
    requires WellFormed(s, c, size)
    ensures WellFormed(o.store, o.cache, size)
    ensures Coherent(s, c) ==> Coherent(o.store, o.cache)
    ensures o.result.Ok? <==> FindById(s, id).Some?
    ensures o.result.Err? ==> o.result == Err(NoEliminado(id)) && o.store == s && o.cache == c
    ensures o.result.Ok? ==>
      o.result.value == s.rows[id].(isDeleted := true, updatedAt := now)
      && o.store.rows == s.rows[id := o.result.value]
      && FifoCache.Get(o.cache, id) == Err(CacheErrors.NotInCache())
    ensures FindById(o.store, id).None?
    ensures o.store.nextId == s.nextId
    ensures o.result.Ok? ==> o.cache.entries == c.entries - {id}
    ensures o.result.Ok? && id !in c.entries ==> o.cache == c
    ensures o.result.Ok? ==>
      forall i | 0 <= i < |c.order| && c.order[i] == id :: o.cache.order == c.order[..i] + c.order[i + 1..]
  {
    var (s', deleted) := Repositories.Delete(s, id, now);
    match deleted
    case None => Outcome(s', c, Err(NoEliminado(id)))
    case Some(d) =>
      FifoCache.RemoveSplices(c, id);
      if id !in c.entries then
        FifoCache.RemoveAbsent(c, id);
        Outcome(s', FifoCache.Remove(c, id), Ok(d))
      else Outcome(s', FifoCache.Remove(c, id), Ok(d))
  }

  // ----- What the outcomes mean -----

  /** Reads that bypass the cache lose nothing: a cached record that is not
      marked deleted is exactly what the store returns for its id. */
  lemma CachedAgreesWithStore(s: Store, c: CacheState, size: int, id: int)
    requires WellFormed(s, c, size) && Coherent(s, c)
    requires id in c.entries && !c.entries[id].isDeleted
    ensures FindById(s, id) == Some(c.entries[id])
    ensures c.entries[id].id == id
  {
  }

  /** Writing one acceptable row into a store of acceptable rows keeps
      every row acceptable. */
  lemma AcceptableAfterWrite(s: Store, t: Store, id: int, row: Estudiante)
    requires AllAcceptable(s) && Acceptable(row) && t.rows == s.rows[id := row]
    ensures AllAcceptable(t)
  {
  }

  /** Only validated records reach the store: if every row passed the
      validator before a create, every row passes it after. */
  lemma {:induction false} CreateKeepsRowsAcceptable(s: Store, c: CacheState, size: int, e: Estudiante, now: Timestamp)
    requires WellFormed(s, c, size) && AllAcceptable(s)
    ensures AllAcceptable(CreateOutcome(s, c, size, e, now).store)
  {
    var o := CreateOutcome(s, c, size, e, now);
    if o.result.Ok? {
      assert Acceptable(e);
      AcceptableAfterWrite(s, o.store, o.result.value.id, o.result.value);
    }
  }

  /** The same for an update: the row it writes carries a validated name
      and mark. */
  lemma {:induction false} UpdateKeepsRowsAcceptable(s: Store, c: CacheState, size: int, id: int, e: Estudiante, now: Timestamp)
    requires WellFormed(s, c, size) && AllAcceptable(s)
    ensures AllAcceptable(UpdateOutcome(s, c, size, id, e, now).store)
  {
    var o := UpdateOutcome(s, c, size, id, e, now);
    if o.result.Ok? {
      assert Acceptable(e);
      AcceptableAfterWrite(s, o.store, id, o.result.value);
    }
  }

  /** And for a delete, which only marks an existing row. */
  lemma {:induction false} DeleteKeepsRowsAcceptable(s: Store, c: CacheState, size: int, id: int, now: Timestamp)
    requires WellFormed(s, c, size) && AllAcceptable(s)
    ensures AllAcceptable(DeleteOutcome(s, c, size, id, now).store)
  {
    var o := DeleteOutcome(s, c, size, id, now);
    if o.result.Ok? {
      assert Acceptable(s.rows[id]);
      AcceptableAfterWrite(s, o.store, id, o.result.value);
    }
  }

  /** With the store's `update` as written, a successful service update
      whose candidate carries an id other than `id` and a different name
      caches a record the store does not hold: the row under `id` keeps its
      old name while the cache maps `id` to the new one. */
  lemma UpdateAsWrittenBreaksCoherence(s: Store, c: CacheState, size: int, id: int, e: Estudiante, now: Timestamp)
    requires WellFormed(s, c, size) && Coherent(s, c)
    requires FindById(s, id).Some? && e.id != id && e.nombre != s.rows[id].nombre
    ensures
      var (s', u) := UpdateAsWritten(s, id, e, now);
      u.Some? && !Coherent(s', FifoCache.Put(c, size, id, u.value))
  {
    var (s', u) := UpdateAsWritten(s, id, e, now);
    var c' := FifoCache.Put(c, size, id, u.value);
    assert c'.entries[id].nombre == e.nombre;
    assert s'.rows[id] == s.rows[id];
  }

  /** The record the store makes of candidate `e` under id `id` at `t`. */
  function SavedAs(id: int, e: Estudiante, t: Timestamp): Estudiante {
    Estudiante(id, e.nombre, e.calificacion, t, t, false)
  }

  /** A valid create inserts the candidate's name and mark under the
      store's next id, then caches exactly that row under that id. */
  lemma CreateSavesThenCaches(s: Store, c: CacheState, size: int, e: Estudiante, now: Timestamp)
    requires WellFormed(s, c, size) && Acceptable(e)
    ensures
      var saved := SavedAs(s.nextId, e, now);
      CreateOutcome(s, c, size, e, now)
        == Outcome(Store(s.rows[s.nextId := saved], s.nextId + 1),
                   FifoCache.Put(c, size, s.nextId, saved),
                   Ok(saved))
  {
  }

  /** A valid create into a full cache evicts the oldest cached id and
      caches the new row last; here with the resulting store and cache
      named. */
  lemma CreateWhenFull(s: Store, c: CacheState, size: int, e: Estudiante, now: Timestamp, s': Store, c': CacheState)
    requires WellFormed(s, c, size) && Coherent(s, c) && Acceptable(e) && |c.order| >= size
    requires s' == Store(s.rows[s.nextId := SavedAs(s.nextId, e, now)], s.nextId + 1)
    requires c' == FifoCache.Fifo(c.order[1..] + [s.nextId], (c.entries - {c.order[0]})[s.nextId := SavedAs(s.nextId, e, now)])
    ensures CreateOutcome(s, c, size, e, now) == Outcome(s', c', Ok(SavedAs(s.nextId, e, now)))
  {
    CreateSavesThenCaches(s, c, size, e, now);
    assert s.nextId !in c.entries;
    FifoCache.PutEvictsOldest(c, size, s.nextId, SavedAs(s.nextId, e, now));
  }

  /** A valid create into a cache with room appends the new id and evicts
      nothing; here with the resulting store and cache named. */
  lemma CreateWithRoomGives(s: Store, c: CacheState, size: int, e: Estudiante, now: Timestamp, s': Store, c': CacheState)
    requires WellFormed(s, c, size) && Coherent(s, c) && Acceptable(e) && |c.order| < size
    requires s' == Store(s.rows[s.nextId := SavedAs(s.nextId, e, now)], s.nextId + 1)
    requires c' == FifoCache.Fifo(c.order + [s.nextId], c.entries[s.nextId := SavedAs(s.nextId, e, now)])
    ensures CreateOutcome(s, c, size, e, now) == Outcome(s', c', Ok(SavedAs(s.nextId, e, now)))
  {
    CreateSavesThenCaches(s, c, size, e, now);
    assert s.nextId !in c.entries;
    FifoCache.PutAppends(c, size, s.nextId, SavedAs(s.nextId, e, now));
  }

  lemma {:induction false} FirstCreate(n: int, a: Estudiante, t: Timestamp)
    requires 1 <= n && Acceptable(a)
    ensures
      var r1 := SavedAs(n, a, t);
      CreateOutcome(Store(map[], n), FifoCache.Empty(), 2, a, t)
        == Outcome(Store(map[n := r1], n + 1), FifoCache.Fifo([n], map[n := r1]), Ok(r1))
  {
    var s0, c0: CacheState := Store(map[], n), FifoCache.Empty();
    var r1 := SavedAs(n, a, t);
    assert [] + [n] == [n];
    CreateWithRoomGives(s0, c0, 2, a, t, Store(map[n := r1], n + 1), FifoCache.Fifo([n], map[n := r1]));
  }

  lemma {:induction false} SecondCreate(n: int, r1: Estudiante, b: Estudiante, t: Timestamp)
    requires 1 <= n && r1.id == n && Acceptable(b)
    ensures
      var r2 := SavedAs(n + 1, b, t);
      CreateOutcome(Store(map[n := r1], n + 1), FifoCache.Fifo([n], map[n := r1]), 2, b, t)
        == Outcome(Store(map[n := r1, n + 1 := r2], n + 2),
                   FifoCache.Fifo([n, n + 1], map[n := r1, n + 1 := r2]), Ok(r2))
  {
    var s1, c1 := Store(map[n := r1], n + 1), FifoCache.Fifo([n], map[n := r1]);
    var r2 := SavedAs(n + 1, b, t);
    assert WellFormed(s1, c1, 2) && Coherent(s1, c1) by {
      assert FifoCache.Elems([n]) == {n};
    }
    assert [n] + [n + 1] == [n, n + 1];
    CreateWithRoomGives(s1, c1, 2, b, t,
      Store(map[n := r1, n + 1 := r2], n + 2), FifoCache.Fifo([n, n + 1], map[n := r1, n + 1 := r2]));
  }

  lemma {:induction false} ThirdCreate(n: int, r1: Estudiante, r2: Estudiante, z: Estudiante, t: Timestamp)
    requires 1 <= n && r1.id == n && r2.id == n + 1 && Acceptable(z)
    ensures
      var r3 := SavedAs(n + 2, z, t);
      CreateOutcome(Store(map[n := r1, n + 1 := r2], n + 2),
                    FifoCache.Fifo([n, n + 1], map[n := r1, n + 1 := r2]), 2, z, t)
        == Outcome(Store(map[n := r1, n + 1 := r2, n + 2 := r3], n + 3),
                   FifoCache.Fifo([n + 1, n + 2], map[n + 1 := r2, n + 2 := r3]), Ok(r3))
  {
    var s2, c2 := Store(map[n := r1, n + 1 := r2], n + 2), FifoCache.Fifo([n, n + 1], map[n := r1, n + 1 := r2]);
    var r3 := SavedAs(n + 2, z, t);
    assert WellFormed(s2, c2, 2) && Coherent(s2, c2) by {
      assert FifoCache.Elems([n, n + 1]) == {n, n + 1};
    }
    assert c2.order[1..] + [n + 2] == [n + 1, n + 2];
    assert (c2.entries - {c2.order[0]})[n + 2 := r3] == map[n + 1 := r2, n + 2 := r3];
    CreateWhenFull(s2, c2, 2, z, t,
      Store(map[n := r1, n + 1 := r2, n + 2 := r3], n + 3), FifoCache.Fifo([n + 1, n + 2], map[n + 1 := r2, n + 2 := r3]));
  }

  /** The end-to-end scenario, for any three valid candidates: with
      capacity 2 and an empty store whose next id is `n`, three creates
      receive the ids `n`, `n + 1` and `n + 2`; the third evicts the first
      one's cache entry, while the store still returns the first record. */
  lemma {:induction false} ThreeCreatesEvictTheFirst(n: int, a: Estudiante, b: Estudiante, z: Estudiante, t: Timestamp)
    requires 1 <= n && Acceptable(a) && Acceptable(b) && Acceptable(z)
    ensures
      var o1 := CreateOutcome(Store(map[], n), FifoCache.Empty(), 2, a, t);
      var o2 := CreateOutcome(o1.store, o1.cache, 2, b, t);
      var o3 := CreateOutcome(o2.store, o2.cache, 2, z, t);
      o1.result.Ok? && o1.result.value.id == n
      && o2.result.Ok? && o2.result.value.id == n + 1
      && o3.result.Ok? && o3.result.value.id == n + 2
      && FifoCache.Get(o3.cache, n).Err?
      && FifoCache.Get(o3.cache, n + 1) == Ok(o2.result.value)
      && FifoCache.Get(o3.cache, n + 2) == Ok(o3.result.value)
      && FindById(o3.store, n) == Some(o1.result.value)
  {
    var r1, r2, r3 := SavedAs(n, a, t), SavedAs(n + 1, b, t), SavedAs(n + 2, z, t);
    var o1 := CreateOutcome(Store(map[], n), FifoCache.Empty(), 2, a, t);
    assert o1 == Outcome(Store(map[n := r1], n + 1), FifoCache.Fifo([n], map[n := r1]), Ok(r1)) by {
      FirstCreate(n, a, t);
    }
    var o2 := CreateOutcome(o1.store, o1.cache, 2, b, t);
    assert o2 == Outcome(Store(map[n := r1, n + 1 := r2], n + 2),
                         FifoCache.Fifo([n, n + 1], map[n := r1, n + 1 := r2]), Ok(r2)) by {
      SecondCreate(n, r1, b, t);
    }
    var o3 := CreateOutcome(o2.store, o2.cache, 2, z, t);
    assert o3 == Outcome(Store(map[n := r1, n + 1 := r2, n + 2 := r3], n + 3),
                         FifoCache.Fifo([n + 1, n + 2], map[n + 1 := r2, n + 2 := r3]), Ok(r3)) by {
      ThirdCreate(n, r1, r2, z, t);
    }
    ThirdStateHolds(n, r1, r2, r3);
  }

  /** What the state after the third create answers. */
  lemma ThirdStateHolds(n: int, r1: Estudiante, r2: Estudiante, r3: Estudiante)
    requires !r1.isDeleted
    ensures FifoCache.Get(FifoCache.Fifo([n + 1, n + 2], map[n + 1 := r2, n + 2 := r3]), n).Err?
    ensures FifoCache.Get(FifoCache.Fifo([n + 1, n + 2], map[n + 1 := r2, n + 2 := r3]), n + 1) == Ok(r2)
    ensures FifoCache.Get(FifoCache.Fifo([n + 1, n + 2], map[n + 1 := r2, n + 2 := r3]), n + 2) == Ok(r3)
    ensures FindById(Store(map[n := r1, n + 1 := r2, n + 2 := r3], n + 3), n) == Some(r1)
  {
  }

  // ----- The service object -----

  /** The service holds the store it was built with and a cache object that
      it shares with whoever built it; `create`, `update` and `delete`
      change both in place. */
  class EstudianteServiceImpl {
    var estudianteRepository: Store
    const estudianteCache: EstudianteCache

    /** The structural invariants of store and cache. Coherence of the two is
        not demanded here; each write is proved to keep it. */
    ghost predicate Valid()
      reads this, estudianteCache
    {
      estudianteCache.Valid() && StoreValid(estudianteRepository)
    }

    /** Every cached record is the current stored row. */
    ghost predicate CacheCoherent()
      reads this, estudianteCache
    {
      Coherent(estudianteRepository, estudianteCache.State())
    }

    constructor (estudianteRepository: Store, estudianteCache: EstudianteCache)
      requires estudianteCache.Valid() && StoreValid(estudianteRepository)
      ensures Valid()
      ensures this.estudianteRepository == estudianteRepository && this.estudianteCache == estudianteCache
    {
      this.estudianteRepository := estudianteRepository;
      this.estudianteCache := estudianteCache;
    }

    /** `getAll`: every live record, straight from the store. */
    function GetAll(): (r: Result<seq<Estudiante>, EstudianteError>)
      reads this
      requires StoreValid(estudianteRepository)
      ensures r.Ok?
      ensures forall e | e in r.value :: Repositories.FindById(estudianteRepository, e.id) == Some(e)
      ensures forall id | Repositories.FindById(estudianteRepository, id).Some? ::
        Repositories.FindById(estudianteRepository, id).value in r.value
      ensures IdsAscending(r.value)
    {
      Ok(FindAll(estudianteRepository))
    }

    /** `getByCalificacion`: the live records with exactly this mark. */
    function GetByCalificacion(calificacion: real): (r: Result<seq<Estudiante>, EstudianteError>)
      reads this
      requires StoreValid(estudianteRepository)
      ensures r.Ok?
      ensures forall e | e in r.value ::
        Repositories.FindById(estudianteRepository, e.id) == Some(e) && e.calificacion == calificacion
      ensures forall id | Repositories.FindById(estudianteRepository, id).Some?
                          && Repositories.FindById(estudianteRepository, id).value.calificacion == calificacion ::
        Repositories.FindById(estudianteRepository, id).value in r.value
      ensures IdsAscending(r.value)
    {
      Ok(FindByCalificacion(estudianteRepository, calificacion))
    }

    /** `findById`: the live record with this id, or the not-found error. The
        cache is not consulted. */
    function FindById(id: int): (r: Result<Estudiante, EstudianteError>)
      reads this
      ensures r.Ok? <==> Repositories.FindById(estudianteRepository, id).Some?
      ensures r.Ok? ==> Repositories.FindById(estudianteRepository, id) == Some(r.value)
      ensures r.Err? ==> r.error == NoEncontrado(id)
    {
      match Repositories.FindById(estudianteRepository, id)
      case None => Err(NoEncontrado(id))
      case Some(e) => Ok(e)
    }

    /** `create`: validate, save, then cache the saved record under its id. */
    method Create(estudiante: Estudiante, now: Timestamp) returns (r: Result<Estudiante, EstudianteError>)
      requires Valid()
      modifies this`estudianteRepository, estudianteCache
      ensures Valid()
      ensures var o := CreateOutcome(old(estudianteRepository), old(estudianteCache.State()), estudianteCache.size, estudiante, now);
        estudianteRepository == o.store && estudianteCache.State() == o.cache && r == o.result
      ensures old(CacheCoherent()) ==> CacheCoherent()
    {
      var validated := Validate(estudiante);
      if validated.Err? {
        return Err(validated.error);
      }
      var (stored, saved) := Save(estudianteRepository, validated.value, now);
      estudianteRepository := stored;
      var cached := estudianteCache.Put(saved.id, saved);
      r := Ok(cached.value);
    }

    /** `update`: validate, update the stored row, then cache the updated
        record under `id`; a missing row is reported as not updated. */
    method Update(id: int, estudiante: Estudiante, now: Timestamp) returns (r: Result<Estudiante, EstudianteError>)
      requires Valid()
      modifies this`estudianteRepository, estudianteCache
      ensures Valid()
      ensures var o := UpdateOutcome(old(estudianteRepository), old(estudianteCache.State()), estudianteCache.size, id, estudiante, now);
        estudianteRepository == o.store && estudianteCache.State() == o.cache && r == o.result
      ensures old(CacheCoherent()) ==> CacheCoherent()
    {
      var validated := Validate(estudiante);
      if validated.Err? {
        return Err(validated.error);
      }
      var (stored, updated) := Repositories.Update(estudianteRepository, id, validated.value, now);
      estudianteRepository := stored;
      if updated.None? {
        return Err(NoActualizado(id));
      }
      var cached := estudianteCache.Put(id, updated.value);
      r := Ok(cached.value);
    }

    /** `delete`: mark the row deleted, then drop `id` from the cache; a
        missing row is reported as not deleted and the cache is untouched. */
    method Delete(id: int, now: Timestamp) returns (r: Result<Estudiante, EstudianteError>)
      requires Valid()
      modifies this`estudianteRepository, estudianteCache
      ensures Valid()
      ensures var o := DeleteOutcome(old(estudianteRepository), old(estudianteCache.State()), estudianteCache.size, id, now);
        estudianteRepository == o.store && estudianteCache.State() == o.cache && r == o.result
      ensures old(CacheCoherent()) ==> CacheCoherent()
    {
      var (stored, deleted) := Repositories.Delete(estudianteRepository, id, now);
      estudianteRepository := stored;
      if deleted.None? {
        return Err(NoEliminado(id));
      }
      var evicted := estudianteCache.Remove(id);
      r := Ok(deleted.value);
    }
  }
}
