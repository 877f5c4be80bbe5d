/** Failure-carrying values shared by the modules of the rsenv model. */
module Wrappers {

  /** Rust's `Option`: a value or nothing. */
  datatype Option<T> = None | Some(value: T)

  /** Rust's `Result`: a success value or an error. */
  datatype Result<T, E> = Ok(value: T) | Err(error: E)
}
