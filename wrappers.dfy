/** Failure-compatible wrappers shared by the model. */
module Wrappers {

  /** An optional value: a form field that may be absent, a lookup that may miss. */
  datatype Option<+T> = None | Some(value: T)

  /** A value or the reason it could not be produced. */
  datatype Result<+R, +E> = Ok(value: R) | Err(error: E)
}
