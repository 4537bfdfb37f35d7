/** Failure-carrying values shared by both inventory builders. */
module Wrappers {

  /** A value that may be missing (Python's None, JavaScript's undefined). */
  datatype Option<+T> = None | Some(value: T) {
    function GetOr(default: T): T {
      match this
      case Some(v) => v
      case None => default
    }
  }

  /** The outcome of a step that either produces a value or raises. */
  datatype Result<+T, +E> = Success(value: T) | Failure(error: E)

  /** The outcome of a step that changes state and either completes or raises. */
  datatype Outcome<+E> = Pass | Fail(error: E)
}
