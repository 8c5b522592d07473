/** Wrappers for Java's nullable values and thrown exceptions. */
module Wrappers {

  /** A value that may be absent: Java's `null` or an empty `Optional`. */
  datatype Option<+T> = None | Some(value: T)

  /** An operation that returns a value or throws. */
  datatype Result<+T, +E> = Success(value: T) | Failure(error: E)

  /** An operation that returns nothing (`void`) or throws. */
  datatype Outcome<+E> = Pass | Fail(error: E)
}
