/** Failure-carrying datatypes shared by the rest of the model: `Option` for a
    value that may be absent, `Result` for an operation that may fail. */
module Wrappers {

  /** A value that may be absent. */
  datatype Option<+T> = None | Some(value: T)

  /** The outcome of an operation that either succeeds with a value or fails
      with an error. */
  datatype Result<+R, +E> = Success(value: R) | Failure(error: E)
}
