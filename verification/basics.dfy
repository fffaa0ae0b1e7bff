/** Failure-carrying wrappers shared by the whole model. */
module Basics {

  /** A value that may be absent (a JavaScript `undefined`, or a failed lookup). */
  datatype Option<+T> = None | Some(value: T)

  /** The outcome of a step that may fail with an error of type E. */
  datatype Result<+T, +E> = Success(value: T) | Failure(error: E)
}
