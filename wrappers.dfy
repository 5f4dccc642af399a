/** Option and Result values: the model's counterpart of std::optional and of
    a thrown exception or a failed contract check. */
module Wrappers {

  datatype Option<+T> = None | Some(value: T)

  datatype Result<+T, +E> = Ok(value: T) | Err(error: E)
}
