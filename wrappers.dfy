/** The optional-value and result datatypes shared by the whole model. */
module Wrappers {

  /** A value that may be absent: Python's `None` or a value. */
  datatype Option<T> = None | Some(value: T)

  /** The outcome of an operation that may raise: a value or the error it raised. */
  datatype Result<T, E> = Ok(value: T) | Err(error: E)
}
