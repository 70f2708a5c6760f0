/** Absent values and failures, as the extension's scripts represent them with
    `undefined`/`null` fields and thrown errors. */
module Wrappers {

  /** A value that may be absent (`undefined` or `null` in the scripts). */
  datatype Option<+T> = None | Some(value: T) {

    /** The value, or `default` when absent (the scripts' `x || default`). */
    function GetOr(default: T): T {
      match this
      case Some(v) => v
      case None => default
    }
  }

  /** The outcome of an operation that can throw. */
  datatype Result<+R, +E> = Success(value: R) | Failure(error: E)
}
