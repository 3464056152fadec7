/** Failure-compatible wrappers shared by the modules of this model. */
module Wrappers {

  /** An optional value: JavaScript's `null` / absent versus a present value. */
  datatype Option<+T> = None | Some(value: T)

  /** The outcome of an operation that may throw: a value, or the error it raises. */
  datatype Result<+T, +E> = Success(value: T) | Failure(error: E)
}
