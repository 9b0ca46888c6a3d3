/** The Option and Result datatypes the model uses. */
module Wrappers {

  /** A value that may be absent: Ruby's `nil` is `None`. */
  datatype Option<+T> = None | Some(value: T)

  /** The outcome of an operation that either produces a value or raises with a message. */
  datatype Result<+R, +E> = Success(value: R) | Failure(error: E)
}
