/** Option and Result, used wherever the JavaScript code returns null, NaN or redirects. */
module Wrappers {

  datatype Option<+T> = None | Some(value: T)

  datatype Result<+T, +E> = Ok(value: T) | Err(error: E)
}
