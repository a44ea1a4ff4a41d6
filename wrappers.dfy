/** Option and Result values: the `None` a lookup returns and the exceptions
    an operation raises. */
module Wrappers {

  datatype Option<+T> = None | Some(value: T)

  datatype Result<+T, +E> = Ok(value: T) | Err(error: E)
}
