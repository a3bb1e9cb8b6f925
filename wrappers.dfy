/** Option and Result values used for missing cells and load failures. */
module Wrappers {

  /** A value that may be missing (pandas' NaN / NaT). */
  datatype Option<+T> = None | Some(value: T)

  /** A computation that either succeeds or reports why it failed. */
  datatype Result<+R, +E> = Success(value: R) | Failure(error: E)
}
