/** Optional values and fallible results, used for omitted
    inputs and for the storage layer's constraint violations. */
module Common {

  /** A value that may be absent (TypeScript's `undefined` or `null`). */
  datatype Option<+T> = None | Some(value: T) {

    /** The value, or `default` when absent: the semantics of a
        destructuring default such as `{ limit = 10 }`. */
    function GetOr(default: T): (r: T)
      ensures Some? ==> r == value
      ensures None? ==> r == default
    {
      match this
      case Some(v) => v
      case None => default
    }
  }

  /** The outcome of a storage operation that can be refused. */
  datatype Result<+T, +E> = Success(value: T) | Failure(error: E)
}
