/** Success-or-failure values, in place of Go's (value, error) pairs and comma-ok reads. */
module Wrappers {
  datatype Option<+T> = None | Some(value: T)

  datatype Result<+T, +E> = Success(value: T) | Failure(error: E)
}
