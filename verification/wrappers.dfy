/** Failure-carrying result types used in place of PHP's NULL returns and exceptions. */
module Wrappers {

  /** A value that may be absent (PHP's NULL). */
  datatype Option<+T> = None | Some(value: T)

  /** The outcome of an operation that may throw: a value, or the message of the exception. */
  datatype Result<+R, +E> = Success(value: R) | Failure(error: E)
}
