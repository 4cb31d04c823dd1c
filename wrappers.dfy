/** Option and Result, used for Python's `None` and for the error results and raised
    exceptions of the modelled scripts. */
module Wrappers {

  datatype Option<+T> = None | Some(value: T)

  datatype Result<+R, +E> = Ok(value: R) | Err(error: E)
}
