/** Failure-compatible result types shared by the model. */
module Wrappers {

  /** A value that may be absent, as JavaScript's `null`/`undefined` returns. */
  datatype Option<+T> = None | Some(value: T)

  /** The outcome of an operation that may throw instead of returning. */
  datatype Result<+R, +E> = Success(value: R) | Failure(error: E)
}
