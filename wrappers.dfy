/** Option and Result values for the Python script's optional inputs and the
    exceptions that abort it. */
module Wrappers {

  datatype Option<+T> = None | Some(value: T)

  datatype Result<+R, +E> = Ok(value: R) | Err(error: E)
}
