/** Option and Result wrappers shared by the whole model. */
module Wrappers {

  /** An optional value: a Go pointer that may be nil, or a lookup that may miss. */
  datatype Option<+T> = None | Some(value: T)

  /** A value or the error that replaced it, as Go's `(T, error)` pairs. */
  datatype Result<+T, +E> = Success(value: T) | Failure(error: E)
}
