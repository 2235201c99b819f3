/** The optional and failure-carrying values the pipeline hands around. */
module Wrappers {

  /** Rust's `Option`: a present or absent value. */
  datatype Option<+T> = None | Some(value: T)

  /** A computation that either succeeds with a value or fails with an error. */
  datatype Result<+R, +E> = Ok(value: R) | Err(error: E)
}
