/** Failure-carrying values used for the exceptions the monitor raises. */
module Wrappers {

  /** A value that may be absent (a file that does not exist, say). */
  datatype Option<+T> = None | Some(value: T)

  /** Either a computed value or the error that replaced it. */
  datatype Result<+R, +E> = Success(value: R) | Failure(error: E)

  /** The outcome of an operation that returns nothing but may fail. */
  datatype Outcome<+E> = Pass | Fail(error: E)
}
