/** Sum types standing in for Python's `None` and for raised exceptions. */
module Wrappers {

  /** A value that may be absent, as Python's `Optional[T]`. */
  datatype Option<+T> = None | Some(value: T)

  /** Either a returned value or a raised error. */
  datatype Result<+R, +E> = Success(value: R) | Failure(error: E)
}
