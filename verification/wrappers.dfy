/** Failure-carrying datatypes shared by the rest of the model. */
module Wrappers {

  datatype Option<+T> = None | Some(value: T)

  /** The outcome of a step that can throw: a value or an error. */
  datatype Result<+R, +E> = Ok(value: R) | Err(error: E)
}
