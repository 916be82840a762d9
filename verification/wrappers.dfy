/** Failure-carrying datatypes shared by the whole model: an optional value and
    a result that is either a value or an error. */
module Wrappers {

  datatype Option<+T> = None | Some(value: T)

  datatype Result<+T, +E> = Ok(value: T) | Err(error: E)
}
