/** Failure-compatible wrappers used for Go's `(value, error)` and `nil` returns. */
module Wrappers {

  /** A value that may be absent; stands for a Go slice or pointer that may be nil. */
  datatype Option<+T> = None | Some(value: T)

  /** Either a value or the error that replaced it, as in Go's `(T, error)` pairs. */
  datatype Result<+R, +E> = Success(value: R) | Failure(error: E)
}
