/** Option and Result, the failure-carrying datatypes the rest of the model uses
    for Rust panics, Python exceptions and absent values. */
module Wrappers {

  datatype Option<+T> = None | Some(value: T)

  datatype Result<+T, +E> = Ok(value: T) | Err(error: E)
}
