/** Go's `(value, error)` and "maybe absent" returns, as values. */
module Wrappers {

  datatype Option<+T> = None | Some(value: T)

  /** Either a value or the error that replaced it (Go's `nil, err`). */
  datatype Result<+T, +E> = Ok(value: T) | Err(error: E)
}
