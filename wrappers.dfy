/** Failure-carrying results shared by the modules of this project. */
module Wrappers {

  /** A value that may be absent: Go's `(v, ok)` pairs. */
  datatype Option<+T> = None | Some(value: T)

  /** A value or an error: Go's `(v, err)` pairs. */
  datatype Result<+T, +E> = Success(value: T) | Failure(error: E)
}
