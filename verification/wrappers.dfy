/** Option and Result datatypes used across the note model. */
module Wrappers {

  /** A value that may be absent: JavaScript's `undefined`/`null`. */
  datatype Option<+T> = None | Some(value: T)

  /** The outcome of a call into the table service that can be rejected. */
  datatype Result<+R, +E> = Success(value: R) | Failure(error: E)
}
