/** Failure-carrying results used for the exceptions the source raises. */
module Wrappers {

  datatype Option<+T> = None | Some(value: T)

  /** Success without a value, or a failure carrying an error. */
  datatype Outcome<+E> = Pass | Fail(error: E)

  /** A value, or a failure carrying an error. */
  datatype Result<+R, +E> = Success(value: R) | Failure(error: E)
}
