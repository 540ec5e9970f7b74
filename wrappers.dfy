/** Option, Result and Outcome: the shapes of the Go code's `(value, error)` returns. */
module Wrappers {

  datatype Option<+T> = None | Some(value: T) {
    function GetOr(default: T): T {
      match this
      case Some(v) => v
      case None => default
    }
  }

  datatype Result<+T, +E> = Success(value: T) | Failure(error: E)

  /** The result of a check that either passes or reports a message. */
  datatype Outcome<+E> = Pass | Fail(message: E)
}
