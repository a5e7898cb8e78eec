/** Optional values (JavaScript's `undefined`/`null` for a field that may be
    absent) and results of operations that can throw. */
module Wrappers {

  datatype Option<+T> = None | Some(value: T) {

    /** The value, or `default` when absent (the `x || default` idiom for non-falsy values). */
    function GetOr(default: T): T {
      match this
      case Some(v) => v
      case None => default
    }
  }

  /** The value an operation returns, or the error it throws. */
  datatype Result<+T, +E> = Success(value: T) | Failure(error: E)
}
