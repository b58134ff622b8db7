/** Failure-carrying values used in place of the exceptions the encoder raises. */
module Wrappers {

  datatype Option<+T> = None | Some(value: T)

  datatype Result<+R, +E> = Success(value: R) | Failure(error: E)

  /** The outcome of an operation that changes state and returns nothing. */
  datatype Outcome<+E> = Pass | Fail(error: E)
}
