/** Option and Result values for the lookups and the error paths of the model. */
module Wrappers {

  datatype Option<+T> = None | Some(value: T)

  /** A call that either yields a value or fails with an error value
      (an HTTP status and detail, a message shown to the user). */
  datatype Result<+T, +E> = Ok(value: T) | Err(error: E)
}
