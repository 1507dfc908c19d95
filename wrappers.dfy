/** Failure-compatible wrappers: an empty-or-present cell and an outcome that is either a value or an error. */
module Wrappers {

  /** A value that may be absent; an empty matrix cell is `None`. */
  datatype Option<+T> = None | Some(value: T)

  /** The outcome of an operation that can throw: `Failure` carries what was thrown. */
  datatype Result<+R, +E> = Success(value: R) | Failure(error: E)
}
