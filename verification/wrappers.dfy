/** The Option and Result shapes that Rust's `Option` and `io::Result` take in this model. */
module Wrappers {

  /** `Option<T>`: a value or nothing. */
  datatype Option<+T> = None | Some(value: T)

  /** `Result<T, E>`: a success value or an error value. */
  datatype Result<+T, +E> = Ok(value: T) | Err(error: E)
}
