/** Optional values and error-carrying results shared by every component. */
module Wrappers {

  /** A value that may be absent (a NaN cell, a missing column, a failed call). */
  datatype Option<+T> = None | Some(value: T)

  /** The outcome of an operation that raises in the original program. */
  datatype Result<+T, +E> = Ok(value: T) | Err(error: E)
}
