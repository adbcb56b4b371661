/** The record store behind the service: the contract of
    Estudiante/repositories/CrudRepository.kt and EstudianteRepository.kt,
    with the soft delete and id assignment that EstudianteRepositoryImpl.kt
    performs over its SQL table. The table itself is not modelled; it is a
    map from id to row, soft-deleted rows included, plus the id the next
    insert receives. Each operation is a function giving the new store and
    its result, where absence (Kotlin's `null`) is `None`. */
module Repositories {
  import opened Wrappers
  import opened Models

  datatype Store = Store(rows: map<int, Estudiante>, nextId: int)

  /** Ids are positive, below the next one to hand out, and every row
      carries its own id. */
  predicate StoreValid(s: Store) {
    1 <= s.nextId && forall id | id in s.rows :: 1 <= id < s.nextId && s.rows[id].id == id
  }

  /** Ids strictly increase along the list, so no record appears twice. */
  predicate IdsAscending(rows: seq<Estudiante>) {
    forall i, j | 0 <= i < j < |rows| :: rows[i].id < rows[j].id
  }

  /** `findById`: the row with this id unless it is absent or soft-deleted.
      A soft-deleted row stays in the table but no read returns it. */
  function FindById(s: Store, id: int): (r: Option<Estudiante>)
    ensures r.Some? <==> id in s.rows && !s.rows[id].isDeleted
    ensures r.Some? ==> r.value == s.rows[id] && !r.value.isDeleted
  {
    if id in s.rows && !s.rows[id].isDeleted then Some(s.rows[id]) else None
  }

  /** The live rows with ids from `lo` up, in increasing id order. */
  function LiveFrom(s: Store, lo: int): (r: seq<Estudiante>)
    requires StoreValid(s)
    ensures forall e | e in r :: lo <= e.id && FindById(s, e.id) == Some(e)
    ensures forall id | lo <= id && FindById(s, id).Some? :: FindById(s, id).value in r
    ensures IdsAscending(r)
    decreases s.nextId - lo
  {
    if lo >= s.nextId then []
    else
      var rest := LiveFrom(s, lo + 1);
      if FindById(s, lo).Some? then [s.rows[lo]] + rest else rest
  }

  /** `findAll`: every live row once, in increasing id order. */
  function FindAll(s: Store): (r: seq<Estudiante>)
    requires StoreValid(s)
    ensures forall e | e in r :: FindById(s, e.id) == Some(e)
    ensures forall id | FindById(s, id).Some? :: FindById(s, id).value in r
    ensures IdsAscending(r)
  {
    LiveFrom(s, 1)
  }

  /** Under a well-formed store, what `findById(id)` finds is the row that
      carries the id `id`, and `findAll` lists it; when it finds nothing,
      no listed record has that id. */
  lemma FindByIdAgreesWithFindAll(s: Store, id: int)
    requires StoreValid(s)
    ensures FindById(s, id).Some? ==> FindById(s, id).value.id == id && FindById(s, id).value in FindAll(s)
    ensures FindById(s, id).None? ==> forall e | e in FindAll(s) :: e.id != id
  {
  }

  /** The records of `rows` with exactly this mark, in their order. */
  function WithCalificacion(rows: seq<Estudiante>, calificacion: real): (r: seq<Estudiante>)
    ensures forall e | e in r :: e in rows && e.calificacion == calificacion
    ensures forall e | e in rows && e.calificacion == calificacion :: e in r
  {
    if rows == [] then []
    else
      var rest := WithCalificacion(rows[1..], calificacion);
      if rows[0].calificacion == calificacion then [rows[0]] + rest else rest
  }

  lemma AscendingTail(rows: seq<Estudiante>)
    requires IdsAscending(rows) && rows != []
    ensures IdsAscending(rows[1..])
    ensures forall e | e in rows[1..] :: rows[0].id < e.id
  {
    var tail := rows[1..];
    forall i, j | 0 <= i < j < |tail| ensures tail[i].id < tail[j].id {
      assert tail[i] == rows[i + 1] && tail[j] == rows[j + 1];
    }
    forall e | e in tail ensures rows[0].id < e.id {
      var k :| 0 <= k < |tail| && tail[k] == e;
      assert e == rows[k + 1];
    }
  }

  lemma AscendingCons(x: Estudiante, rest: seq<Estudiante>)
    requires IdsAscending(rest) && forall e | e in rest :: x.id < e.id
    ensures IdsAscending([x] + rest)
  {
    var r := [x] + rest;
    forall i, j | 0 <= i < j < |r| ensures r[i].id < r[j].id {
      assert r[j] == rest[j - 1] && r[j] in rest;
      if i > 0 {
        assert r[i] == rest[i - 1];
      }
    }
  }

  /** Filtering keeps the order: a list with ascending ids filters to a
      list with ascending ids, so each kept record appears once. */
  lemma {:induction false} WithCalificacionAscending(rows: seq<Estudiante>, calificacion: real)
    requires IdsAscending(rows)
    ensures IdsAscending(WithCalificacion(rows, calificacion))
  {
    if rows != [] {
      AscendingTail(rows);
      WithCalificacionAscending(rows[1..], calificacion);
      if rows[0].calificacion == calificacion {
        AscendingCons(rows[0], WithCalificacion(rows[1..], calificacion));
      }
    }
  }

  /** `findByCalificacion`: the live rows with exactly this mark, each once,
      in increasing id order. */
  function FindByCalificacion(s: Store, calificacion: real): (r: seq<Estudiante>)
    requires StoreValid(s)
    ensures forall e | e in r :: FindById(s, e.id) == Some(e) && e.calificacion == calificacion
    ensures forall id | FindById(s, id).Some? && FindById(s, id).value.calificacion == calificacion ::
      FindById(s, id).value in r
    ensures IdsAscending(r)
  {
    WithCalificacionAscending(FindAll(s), calificacion);
    WithCalificacion(FindAll(s), calificacion)
  }

  /** `save`: insert the candidate's name and mark under a fresh id, both
      timestamps set to `now` and not deleted; the inserted row is returned.
      The candidate's own id, timestamps and deletion flag are ignored. */
  function Save(s: Store, e: Estudiante, now: Timestamp): (r: (Store, Estudiante))
    requires StoreValid(s)
    ensures StoreValid(r.0)
    ensures r.1.id !in s.rows && r.0.rows == s.rows[r.1.id := r.1]
    ensures r.1.nombre == e.nombre && r.1.calificacion == e.calificacion && !r.1.isDeleted
    ensures FindById(r.0, r.1.id) == Some(r.1)
  {
    var saved := Estudiante(s.nextId, e.nombre, e.calificacion, now, now, false);
    (Store(s.rows[s.nextId := saved], s.nextId + 1), saved)
  }

  /** `update(id, e)`: absent when `findById(id)` is; otherwise the row takes
      the candidate's name, mark and deletion flag and `updatedAt := now`,
      keeping its id and creation time, and is written back under `id`. */
  function Update(s: Store, id: int, e: Estudiante, now: Timestamp): (r: (Store, Option<Estudiante>))
    requires StoreValid(s)
    ensures StoreValid(r.0)
    ensures r.1.None? <==> FindById(s, id).None?
    ensures r.1.None? ==> r.0 == s
    ensures r.1.Some? ==> r.0.rows == s.rows[id := r.1.value] && r.0.nextId == s.nextId
    ensures r.1.Some? ==> var u := r.1.value;
      u.id == id && u.createdAt == s.rows[id].createdAt && u.updatedAt == now
      && u.nombre == e.nombre && u.calificacion == e.calificacion && u.isDeleted == e.isDeleted
  {
    match FindById(s, id)
    case None => (s, None)
    case Some(found) =>
      var updated := found.(nombre := e.nombre, calificacion := e.calificacion,
                            isDeleted := e.isDeleted, updatedAt := now);
      (Store(s.rows[id := updated], s.nextId), Some(updated))
  }

  /** `update(id, e)` as EstudianteRepositoryImpl.kt writes it: the record
      it returns is the one `Update` returns, but the stored write is keyed
      by the candidate's own id `e.id`, not by `id`. The row under `e.id`, if
      there is one, takes the new name, mark, deletion flag and time. */
  function UpdateAsWritten(s: Store, id: int, e: Estudiante, now: Timestamp): (r: (Store, Option<Estudiante>))
    requires StoreValid(s)
    ensures StoreValid(r.0)
    ensures r.1 == Update(s, id, e, now).1
    ensures r.0.rows.Keys == s.rows.Keys && r.0.nextId == s.nextId
    ensures r.1.Some? && e.id in s.rows ==>
      r.0.rows[e.id] == s.rows[e.id].(nombre := e.nombre, calificacion := e.calificacion,
                                      isDeleted := e.isDeleted, updatedAt := now)
    ensures forall k | k in s.rows && (r.1.None? || k != e.id) :: r.0.rows[k] == s.rows[k]
    ensures r.1.Some? && e.id != id ==> r.0.rows[id] == s.rows[id]
  {
    match FindById(s, id)
    case None => (s, None)
    case Some(found) =>
      var updated := found.(nombre := e.nombre, calificacion := e.calificacion,
                            isDeleted := e.isDeleted, updatedAt := now);
      if e.id in s.rows then
        var written := s.rows[e.id].(nombre := updated.nombre, calificacion := updated.calificacion,
                                     isDeleted := updated.isDeleted, updatedAt := now);
        (Store(s.rows[e.id := written], s.nextId), Some(updated))
      else (s, Some(updated))
  }

  /** `delete(id)`: absent when `findById(id)` is; otherwise the row is kept
      but marked deleted with `updatedAt := now`, and that marked row is
      returned. */
  function Delete(s: Store, id: int, now: Timestamp): (r: (Store, Option<Estudiante>))
    requires StoreValid(s)
    ensures StoreValid(r.0)
    ensures r.1.None? <==> FindById(s, id).None?
    ensures r.1.None? ==> r.0 == s
    ensures r.1.Some? ==> r.0.rows == s.rows[id := r.1.value] && r.0.nextId == s.nextId
    ensures r.1.Some? ==> r.1.value == s.rows[id].(isDeleted := true, updatedAt := now)
    ensures FindById(r.0, id).None?
  {
    match FindById(s, id)
    case None => (s, None)
    case Some(found) =>
      var deleted := found.(isDeleted := true, updatedAt := now);
      (Store(s.rows[id := deleted], s.nextId), Some(deleted))
  }
}
