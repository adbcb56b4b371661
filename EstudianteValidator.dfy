/** `EstudianteValidator.validate` of
    Estudiante/validators/EstudianteValidator.kt: a pure check of a candidate
    record, name first, then mark. */
module Validators {
  import opened Wrappers
  import opened Models
  import opened Errors

  const NombreVacio: string := "El nombre no puede estar vacío"
  const CalificacionNoPositiva: string := "La calificación no puede ser menor o igual a 0"

  /** Kotlin's `Char.isWhitespace` on the JVM: Java's `isWhitespace` or
      `isSpaceChar`, that is the control characters U+0009..U+000D and
      U+001C..U+001F, and every space, line and paragraph separator
      (including the no-break spaces). The set is the one of JVMs built on
      Unicode 6.3 or later (Java 9 onwards); Java 8, on Unicode 6.2, also
      counts U+180E as a space separator. */
  predicate IsWhitespace(c: char) {
    var n := c as int;
    (0x09 <= n <= 0x0D) || (0x1C <= n <= 0x20) || n == 0xA0 || n == 0x1680
    || (0x2000 <= n <= 0x200A) || n == 0x2028 || n == 0x2029 || n == 0x202F
    || n == 0x205F || n == 0x3000
  }

  /** Kotlin's `isBlank`: empty, or made only of whitespace. */
  predicate IsBlank(s: string) {
    forall i | 0 <= i < |s| :: IsWhitespace(s[i])
  }

  /** A record the validator lets through: its name shows at least one
      character that is not whitespace, and its mark is positive. */
  predicate Acceptable(e: Estudiante) {
    (exists i | 0 <= i < |e.nombre| :: !IsWhitespace(e.nombre[i])) && e.calificacion > 0.0
  }

  /** `validate`: a blank name is refused first, then a mark of 0 or less;
      otherwise the candidate comes back unchanged. */
  function Validate(e: Estudiante): (r: Result<Estudiante, EstudianteError>)
    ensures r.Ok? <==> Acceptable(e)
    ensures r.Ok? ==> r.value == e
    ensures IsBlank(e.nombre) ==> r == Err(EstudianteNoValido(NombreVacio))
    ensures !IsBlank(e.nombre) && e.calificacion <= 0.0
            ==> r == Err(EstudianteNoValido(CalificacionNoPositiva))
  {
    if IsBlank(e.nombre) then Err(EstudianteNoValido(NombreVacio))
    else if e.calificacion <= 0.0 then Err(EstudianteNoValido(CalificacionNoPositiva))
    else Ok(e)
  }
}
