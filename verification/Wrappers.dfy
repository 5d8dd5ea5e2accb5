/** Optional values and success-or-error results, as the Python code uses `None` and exceptions. */
module Wrappers {

  /** A value that may be absent (`str | None` in the source). */
  datatype Option<+T> = None | Some(value: T)

  /** The outcome of an operation that either returns a value or raises. */
  datatype Result<+R, +E> = Success(value: R) | Failure(error: E)
}
