/** Option and Result, the two wrappers the model uses. */
module Wrappers {

  /** A value that may be missing; `None` plays the part of JavaScript's `undefined`. */
  datatype Option<+T> = None | Some(value: T)

  /** The outcome of a step that may throw: `Failure` carries what was thrown. */
  datatype Result<+R, +E> = Success(value: R) | Failure(error: E)
}
