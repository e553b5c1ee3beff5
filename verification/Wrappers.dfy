/** Failure-compatible wrappers shared by the key parser and the user service. */
module Wrappers {

  /** A value that may be absent; models a nullable reference. */
  datatype Option<+T> = None | Some(value: T)

  /** The outcome of an operation that either returns a value or raises an error. */
  datatype Result<+R, +E> = Success(value: R) | Failure(error: E)
}
