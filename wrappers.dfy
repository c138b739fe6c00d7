/** Failure-carrying results used in place of the source's exceptions. */
module Wrappers {

  /** A value that may be absent; stands for a Python attribute that may be None. */
  datatype Option<+T> = None | Some(value: T)

  /** The outcome of an operation that either produces a value or fails. */
  datatype Result<+T, +E> = Success(value: T) | Failure(error: E)

  /** The outcome of an operation that produces nothing when it succeeds. */
  datatype Outcome<+E> = Pass | Fail(error: E)
}
