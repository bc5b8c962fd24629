/** Optional values and results, used across the model. */
module Wrappers {

  /** A value that may be absent (Python's `None`). */
  datatype Option<+T> = None | Some(value: T)

  /** A result or the error that the source would raise instead. */
  datatype Result<+R, +E> = Success(value: R) | Failure(error: E)
}
