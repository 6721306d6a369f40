/** Failure-carrying result types shared by the other modules. */
module Wrappers {

  datatype Option<+T> = None | Some(value: T)

  /** A computation that either succeeds with a value or fails with an error, standing for
      a Python function that returns normally or raises. */
  datatype Result<+T, +E> = Ok(value: T) | Err(error: E)
}
