/** The student cache of Estudiante/cache/EstudianteCache.kt: the generic
    cache at keys `Long` and values `Estudiante`, adding no behaviour. */
module EstudianteCaches {
  import CacheBase
  import Models

  type EstudianteCache = CacheBase.CacheImpl<int, Models.Estudiante>
}
