/** Value types standing for an absent reference and for an operation that may raise an exception. */
module Wrappers {

  /** A reference that may be null. */
  datatype Option<+T> = None | Some(value: T)

  /** The outcome of an operation that returns a value or raises an exception. */
  datatype Result<+T, +E> = Success(value: T) | Failure(error: E)

  /** The outcome of a check that either passes or raises an exception. */
  datatype Outcome<+E> = Pass | Fail(error: E)
}
