/** Failure-carrying values shared by the other modules. */
module Wrappers {

  /** A value that may be missing: Java's `null`. */
  datatype Option<+T> = None | Some(value: T) {
    function GetOr(default: T): T {
      match this
      case Some(v) => v
      case None => default
    }
  }

  /** The value of an expression that either returns normally or throws. */
  datatype Result<+R, +E> = Success(value: R) | Failure(error: E)

  /** The outcome of a `void` Java method that either returns or throws. */
  datatype Outcome<+E> = Pass | Fail(error: E)
}
