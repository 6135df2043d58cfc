/** Option and Result, the shapes of logos's `Option<Result<Token, Error>>`. */
module Wrappers {
  datatype Option<+T> = None | Some(value: T)

  datatype Result<+T, +E> = Ok(value: T) | Err(error: E)
}
