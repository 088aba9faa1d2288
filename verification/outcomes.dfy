/** Failure-carrying values shared by every module of the model. */
module Outcomes {

  /** A value that may be absent: Python's `None` versus a present value. */
  datatype Option<+T> = None | Some(value: T)

  /** The outcome of an operation that either succeeds with a value or is
      rejected with an error that says why. */
  datatype Result<+T, +E> = Ok(value: T) | Err(error: E)
}
