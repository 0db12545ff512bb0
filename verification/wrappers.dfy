/** Failure-compatible helper datatypes shared by the exam model. */
module Wrappers {

  /** A value that may be absent: a nullable column or a lookup that can miss. */
  datatype Option<+T> = None | Some(value: T)

  /** Either the value an operation produced or the error it raised. */
  datatype Result<+T, +E> = Ok(value: T) | Err(error: E)
}
