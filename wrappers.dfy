/** Result of an operation that can fail: Go's `(value, error)` pair. */
module Wrappers {
  datatype Result<+T, +E> = Ok(value: T) | Err(error: E)
}
