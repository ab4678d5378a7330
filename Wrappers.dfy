/** Optional values and results for the pipeline's error paths. */
module Wrappers {

  /** A value that may be missing (a NaN cell, a failed lookup). */
  datatype Option<+T> = None | Some(value: T)

  /** The outcome of an operation that raises in the original program. */
  datatype Result<+R, +E> = Ok(value: R) | Err(error: E)
}
