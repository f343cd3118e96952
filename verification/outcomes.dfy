/** Failure-carrying values shared by the rest of the model. */
module Outcomes {

  /** A value that may be absent: a SQL NULL, an empty result set, a missing upload. */
  datatype Option<+T> = None | Some(value: T)

  /** Either a value or the error that was raised instead of producing it. */
  datatype Result<+T, +E> = Ok(value: T) | Err(error: E)
}
