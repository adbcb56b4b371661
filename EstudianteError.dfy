/** The service-level errors of Estudiante/errors/EstudianteError.kt, each
    carrying its message, and the messages the service builds for them. */
module Errors {

  datatype EstudianteError =
    | EstudianteNoEncontrado(message: string)
    | EstudianteNoValido(message: string)
    | EstudianteNoActualizado(message: string)
    | EstudianteNoEliminado(message: string)

  function DigitChar(d: nat): char
    requires d < 10
  {
    "0123456789"[d]
  }

  /** The decimal text of a natural number, as string templates print it. */
  function NatToString(n: nat): (s: string)
    ensures |s| >= 1
    decreases n
  {
    if n < 10 then [DigitChar(n)] else NatToString(n / 10) + [DigitChar(n % 10)]
  }

  /** The decimal text of an id, with a leading minus sign when negative. */
  function IdToString(id: int): string {
    if id < 0 then "-" + NatToString(-id) else NatToString(id)
  }

  function NoEncontrado(id: int): EstudianteError {
    EstudianteNoEncontrado("Estudiante no encontrado con ID: " + IdToString(id))
  }

  function NoActualizado(id: int): EstudianteError {
    EstudianteNoActualizado("Estudiante no actualizado con ID: " + IdToString(id))
  }

  function NoEliminado(id: int): EstudianteError {
    EstudianteNoEliminado("Estudiante no eliminado con ID: " + IdToString(id))
  }
}
