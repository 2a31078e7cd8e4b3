/** Option and Result datatypes for the Go idioms `x, ok := ...` and `v, err := ...`. */
module Wrappers {

  datatype Option<+T> = None | Some(value: T)

  /** Either the computed value or the first error met on the way. */
  datatype Result<+T, +E> = Success(value: T) | Failure(error: E)
}
