/** Failure-compatible wrappers: Option stands for a nullable .NET reference,
    Result and Outcome for an operation that may throw an exception. */
module Wrappers {

  /** A value that may be absent (a .NET `null`). */
  datatype Option<+T> = None | Some(value: T)

  /** A value, or the error that was raised instead of producing it. */
  datatype Result<+R, +E> = Success(value: R) | Failure(error: E)

  /** Success without a value, or the error that was raised. */
  datatype Outcome<+E> = Pass | Fail(error: E)
}
