/** Option and Result, used for Python's `None` and for raised exceptions. */
module Wrappers {

  datatype Option<+T> = None | Some(value: T)

  datatype Result<+T, +E> = Ok(value: T) | Err(error: E)

  /** The Python exceptions that escape the modelled code uncaught. */
  datatype PyError = TypeError | ValueError | IndexError | KeyError | AssertionError
}
