/** Failure-carrying datatypes shared by the other modules. */
module Wrappers {

  /** A value that may be absent. */
  datatype Option<+T> = None | Some(value: T)

  /** The (value, error) pair a Go function returns, with exactly one side meaningful. */
  datatype Result<+T, +E> = Ok(value: T) | Err(error: E)
}
