/**
  Failure-carrying values shared by every container model: an operation that the
  original code ends by throwing, or by returning a null pointer, yields `Err`/`None`.
 */
module Outcomes {

  datatype Option<+T> = None | Some(value: T)

  datatype Result<+T, +E> = Ok(value: T) | Err(error: E)
}
