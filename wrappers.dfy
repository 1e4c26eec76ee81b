/** Option and Result: the "no value" and "raised an exception" outcomes of the
    Python code, as values. */
module Wrappers {

  datatype Option<+T> = None | Some(value: T)

  datatype Result<+T, +E> = Ok(value: T) | Err(error: E)
}
