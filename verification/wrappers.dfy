/** Failure-carrying datatypes shared by the pagination model. */
module Wrappers {

  /** A value that may be absent (Python's `None`). */
  datatype Option<+T> = None | Some(value: T)

  /** Either a value or the error the source raises instead. */
  datatype Result<+T, +E> = Success(value: T) | Failure(error: E)
}
