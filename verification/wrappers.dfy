/** Optional values and error-carrying results, used where the source returns
    `null`/`undefined` or throws. */
module Wrappers {

  /** A value that may be absent (the source's `null` or `undefined`). */
  datatype Option<+T> = None | Some(value: T) {

    /** The wrapped value, or `default` when absent (the source's `?? default`). */
    function GetOr(default: T): T {
      match this
      case Some(v) => v
      case None => default
    }
  }

  /** Either a value or the error the source would throw. */
  datatype Result<+T, +E> = Success(value: T) | Failure(error: E)
}
