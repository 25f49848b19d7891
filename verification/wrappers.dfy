/** Failure-carrying result types shared by the model. */
module Wrappers {

  /** A value that may be absent: the source's `None`/null. */
  datatype Option<+T> = None | Some(value: T)

  /** The outcome of an operation that either yields a value or fails with an error. */
  datatype Result<+T, +E> = Ok(value: T) | Err(error: E)
}
