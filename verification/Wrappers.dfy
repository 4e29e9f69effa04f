/** Failure and absence, as the program's `nil`, `ok` and `error` results express them. */
module Wrappers {
  datatype Option<+T> = None | Some(value: T)

  datatype Result<+T, +E> = Ok(value: T) | Err(error: E)
}
