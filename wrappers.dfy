/** Option and Result values for operations that can fail. */
module Wrappers {

  datatype Option<+T> = None | Some(value: T)

  /** The outcome of an operation that either returns a value or fails with an error. */
  datatype Result<+T, +E> = Success(value: T) | Failure(error: E)

  /** The outcome of an operation that returns nothing, or fails with an error. */
  datatype Outcome<+E> = Pass | Fail(error: E)
}
