/** Failure-carrying datatypes shared by the codec and the command engine. */
module Wrappers {

  /** A value that may be missing: a Python `None`, a failed lookup or a failed parse. */
  datatype Option<+T> = None | Some(value: T)

  /** The outcome of an operation that either produces a value or raises. */
  datatype Result<+T, +E> = Success(value: T) | Failure(error: E)
}
