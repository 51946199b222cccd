/** Option and Result, the failure-carrying datatypes the rest of the model uses. */
module Wrappers {

  /** A value that may be missing, the model of the source's `undefined`/`null` returns. */
  datatype Option<+T> = None | Some(value: T)

  /** The outcome of an operation that can fail. */
  datatype Result<+T, +E> = Success(value: T) | Failure(error: E)
}
