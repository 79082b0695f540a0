/** Failure-compatible wrappers used across the model: Java's nullable
    references become `Option`, thrown exceptions become `Result`/`Outcome`. */
module Wrappers {

  /** A value that may be absent; stands for a nullable Java reference or an
      `Optional`. */
  datatype Option<+T> = None | Some(value: T) {

    /** The carried value, or `default` when absent. */
    function GetOr(default: T): T {
      match this
      case Some(v) => v
      case None => default
    }
  }

  /** The outcome of an operation that returns a value or raises an error. */
  datatype Result<+T, +E> = Success(value: T) | Failure(error: E)

  /** The outcome of a check that returns nothing or raises an error. */
  datatype Outcome<+E> = Pass | Fail(error: E)
}
