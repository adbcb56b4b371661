/** The student record of Estudiante/models/Estudiante.kt. */
module Models {

  /** A moment as the store records it. The clock that produces it is not
      modelled: every operation that stamps a record takes `now` as a
      parameter, and no operation inspects a timestamp. */
  datatype Timestamp = Timestamp(ticks: int)

  /** `calificacion` is a Kotlin `Double`; the only operation on it is the
      comparison with 0, so it is a `real` here. */
  datatype Estudiante = Estudiante(
    id: int,
    nombre: string,
    calificacion: real,
    createdAt: Timestamp,
    updatedAt: Timestamp,
    isDeleted: bool)
}
