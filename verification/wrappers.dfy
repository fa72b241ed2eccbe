/** Optional values and fallible results, as TypeScript's `undefined`/absent
    fields and thrown query errors. */
module Wrappers {

  /** A value that may be absent: TypeScript's `T | undefined`. */
  datatype Option<+T> = None | Some(value: T) {

    /** The value, or `default` when absent (TypeScript's `x ?? default`). */
    function GetOr(default: T): T {
      match this
      case Some(v) => v
      case None => default
    }
  }

  /** The outcome of a query that either answers or throws. */
  datatype Result<+R, +E> = Success(value: R) | Failure(error: E)
}
