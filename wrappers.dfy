/** Failure-carrying return values, standing in for Python's exceptions. */
module Wrappers {

  /** A value that may be absent. */
  datatype Option<+T> = None | Some(value: T)

  /** Either a result or the error that a Python call would have raised. */
  datatype Result<+T, +E> = Ok(value: T) | Err(error: E)
}
