/** Results and optional values, as Go's `(T, error)` and `(T, bool)` returns are read here. */
module Wrappers {
  datatype Option<+T> = None | Some(value: T)

  datatype Result<+T, +E> = Ok(value: T) | Err(error: E)
}
