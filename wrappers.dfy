/** Failure-carrying results shared by the other modules. */
module Wrappers {

  datatype Option<+T> = None | Some(value: T)

  /** A value or an error, as a Go function returning `(T, error)`. */
  datatype Result<+T, +E> = Ok(value: T) | Err(error: E)
}
