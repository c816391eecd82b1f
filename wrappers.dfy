/** Option and Result, the failure values used across the model. */
module Wrappers {

  datatype Option<+T> = None | Some(value: T)

  /** A value or the error that the JavaScript code would have thrown. */
  datatype Result<+T, +E> = Ok(value: T) | Err(error: E)
}
