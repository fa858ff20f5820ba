/** Failure-compatible wrappers used for the places where the scripts return
    `None`, raise, or skip. */
module Wrappers {

  /** A value that may be absent (Python's `None`). */
  datatype Option<+T> = None | Some(value: T) {

    /** The wrapped value, or `default` when absent (Python's `x if x is not None else default`). */
    function GetOr(default: T): T {
      match this
      case Some(v) => v
      case None => default
    }
  }

  /** The outcome of a step that can raise: a value or an error message. */
  datatype Result<+R> = Success(value: R) | Failure(error: string)
}
