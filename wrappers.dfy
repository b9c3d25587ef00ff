/** Failure-compatible values: an absent result and a result that may carry an error. */
module Wrappers {

  /** A value that may be missing (Python's `Optional`). */
  datatype Option<+T> = None | Some(value: T)

  /** A value, or the error that prevented it. */
  datatype Result<+T, +E> = Ok(value: T) | Err(error: E)
}
