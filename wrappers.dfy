/** Option and Result, the failure-carrying values every other module returns. */
module Wrappers {

  datatype Option<T> = None | Some(value: T)

  /** The value of a Rust `Result` or `anyhow::Result`: a value, or an error of kind E. */
  datatype Result<T, E> = Ok(value: T) | Err(error: E)
}
