/** Failure-carrying results used by the operations of the model. */
module Wrappers {

  /** The value an operation returns, or the exception it raises. */
  datatype Result<+T, +E> = Success(value: T) | Failure(error: E)

  /** A value that may be absent, such as a cell of `_step1` before it is written. */
  datatype Option<+T> = None | Some(value: T)

  /** An operation that returns nothing on success, or raises an exception. */
  datatype Outcome<+E> = Pass | Fail(error: E)
}
