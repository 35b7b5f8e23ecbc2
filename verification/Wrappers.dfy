/** The two result shapes the model uses for Go's `(value, error)` pairs and nil pointers. */
module Wrappers {
  datatype Option<+T> = None | Some(value: T)

  datatype Result<+T, +E> = Ok(value: T) | Err(error: E)
}
