/** The error the generic cache reports for a key it does not hold
    (cache/errors/CacheError.kt). */
module CacheErrors {

  datatype CacheError = CacheError(message: string)

  /** The one message the cache uses, for both `get` and `remove` misses. */
  const NotInCacheMessage: string := "No existe el valor en la cache"

  function NotInCache(): CacheError {
    CacheError(NotInCacheMessage)
  }
}
