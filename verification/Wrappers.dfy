/** Failure-carrying values shared by the models. */
module Wrappers {

  datatype Option<+T> = None | Some(value: T)

  /** A Go `(value, error)` pair; the error text is not modelled. */
  datatype Result<+T> = Ok(value: T) | Err
}
