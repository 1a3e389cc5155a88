/** Failure-carrying values shared by the whole model. */
module Wrappers {

  /** A value that may be absent: JavaScript's `undefined`/`null` results. */
  datatype Option<+T> = None | Some(value: T)

  /** The outcome of running an external command: its output, or the text of the thrown error. */
  datatype Result<+R, +E> = Success(value: R) | Failure(error: E)
}
