/** Failure-carrying values used across the model: `Option` for a lookup that
    may miss, `Result` for an operation that returns a value or raises. */
module Wrappers {

  datatype Option<+T> = None | Some(value: T)

  datatype Result<+T, +E> = Success(value: T) | Failure(error: E)
}
