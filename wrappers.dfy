/** Failure-compatible wrappers shared by the backtest modules. */
module Wrappers {

  /** A value that may be undefined, as a NaN cell of a rolling window is. */
  datatype Option<+T> = None | Some(value: T)

  /** The outcome of an operation that can raise. */
  datatype Result<+R, +E> = Success(value: R) | Failure(error: E)
}
