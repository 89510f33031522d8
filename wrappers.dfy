/** Failure-carrying datatypes used for every panic and `Result` of the model. */
module Wrappers {

  datatype Option<+T> = None | Some(value: T)

  datatype Result<+T, +E> = Success(value: T) | Failure(error: E)

  /** The outcome of an operation that returns `()` in the source but may panic. */
  datatype Outcome<+E> = Pass | Fail(error: E)
}
