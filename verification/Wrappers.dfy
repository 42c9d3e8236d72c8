/** The result datatypes shared by the whole model. */
module Wrappers {
  /** A value that may be absent: Go's `v, ok` pairs and nil pointers. */
  datatype Option<+T> = None | Some(value: T)

  /** Go's `(value, error)` returns; a failing call carries no value. */
  datatype Result<+T, +E> = Ok(value: T) | Err(error: E)
}
