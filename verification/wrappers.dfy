/** Failure-carrying wrappers shared by the catalog model. */
module Wrappers {

  /** A value that may be absent: a nullable column, an unset attribute. */
  datatype Option<+T> = None | Some(value: T)

  /** The outcome of a store operation: the new store, or the reason it was refused. */
  datatype Result<+T, +E> = Ok(value: T) | Err(error: E)

  /** The outcome of a validation that produces nothing when it passes. */
  datatype Outcome<+E> = Pass | Fail(error: E)
}
