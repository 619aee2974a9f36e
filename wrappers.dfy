/** Option and Result, used wherever the Ruby code returns nil or raises. */
module Wrappers {

  datatype Option<+T> = None | Some(value: T)

  /** The outcome of a Ruby computation that either returns a value or raises. */
  datatype Result<+T, +E> = Ok(value: T) | Err(error: E)
}
