/** Failure-carrying values used in place of `undefined` and thrown errors. */
module Wrappers {

  /** A value that may be absent (the source's `T | undefined`). */
  datatype Option<+T> = None | Some(value: T)

  /** Either a value or the error that would have been thrown. */
  datatype Result<+T, +E> = Ok(value: T) | Err(error: E)
}
