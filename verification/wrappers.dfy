/** Option and Result, the shapes the modelled code uses for "nothing happened" and errors. */
module Wrappers {

  datatype Option<+T> = None | Some(value: T)

  datatype Result<+T, +E> = Ok(value: T) | Err(error: E)
}
