/** Option and Result, used for nullable references and for exceptions. */
module Wrappers {

  /** A nullable reference: `None` plays the role of `null`. */
  datatype Option<+T> = None | Some(value: T)

  /** The outcome of an operation that may throw. */
  datatype Result<+R, +E> = Success(value: R) | Failure(error: E)
}
