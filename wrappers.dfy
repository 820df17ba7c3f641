/** Optional values and fallible results, as the binding layer returns them. */
module Wrappers {

  /** A value that may be absent (`Option<T>` on the Rust side, `None` in Python). */
  datatype Option<+T> = None | Some(value: T)

  /** A value or an error message (`PyResult<T>`; the error is the engine's diagnostic text). */
  datatype Result<+T, +E> = Success(value: T) | Failure(error: E)
}
