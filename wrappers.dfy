/** Failure-compatible wrappers used to make the source's exceptions explicit. */
module Wrappers {

  datatype Option<+T> = None | Some(value: T)

  /** The value a Python call returns, or the exception it raises. */
  datatype Result<+T, +E> = Ok(value: T) | Err(error: E)

  /** The outcome of a Python call that returns nothing: it completes, or it raises. */
  datatype Outcome<+E> = Pass | Fail(error: E)
}
