/** Optional values and success/failure results used across the model. */
module Wrappers {

  /** A value that may be absent, as a regex search that finds no match. */
  datatype Option<+T> = None | Some(value: T)

  /** The outcome of an operation that either yields a value or stops with an error. */
  datatype Result<+T, +E> = Ok(value: T) | Err(error: E)
}
