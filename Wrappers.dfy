/** Option and Result, used for the source's null references and thrown exceptions. */
module Wrappers {

  /** A value that may be absent (a null reference in the source). */
  datatype Option<+T> = None | Some(value: T)

  /** A value or the error that the source raises instead of returning one. */
  datatype Result<+R, +E> = Success(value: R) | Failure(error: E)
}
