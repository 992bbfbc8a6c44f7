/** Failure-carrying values shared by both searches. */
module Wrappers {

  /** A value that may be absent (a missing record field, a failed lookup). */
  datatype Option<+T> = None | Some(value: T)

  /** Either a value or the error the program would raise instead of returning. */
  datatype Result<+R, +E> = Success(value: R) | Failure(error: E)
}
