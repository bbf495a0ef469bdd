/** Failure-carrying results, standing in for Rust's `Option` and for the
    panics of the tool that the model covers (each becomes an `Err` with a
    reason). */
module Wrappers {
  datatype Option<+T> = None | Some(value: T)

  datatype Result<+T, +E> = Ok(value: T) | Err(error: E)
}
