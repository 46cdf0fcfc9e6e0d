/** Failure-compatible result types shared by the modules of the model. */
module Wrappers {

  /** A value that may be missing; `None` stands for Python's `None`. */
  datatype Option<+T> = None | Some(value: T)

  /** The outcome of an operation that can raise: `Failure` carries the kind of error. */
  datatype Result<+T, +E> = Success(value: T) | Failure(error: E)
}
