/** Option and Result, the two failure-carrying values used throughout the model. */
module Wrappers {

  datatype Option<+T> = None | Some(value: T)

  datatype Result<+T, +E> = Success(value: T) | Failure(error: E)

  /** The outcome of a handler that answers only "done" or an error. */
  datatype Outcome<+E> = Pass | Fail(error: E)
}
