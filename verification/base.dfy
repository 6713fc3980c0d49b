/** Small failure-carrying datatypes shared by every module of the model. */
module Base {

  /** A value that may be missing: a SQL NULL, an absent query parameter, a lookup miss. */
  datatype Option<+T> = None | Some(value: T)

  /** The outcome of an operation that either succeeds with a value or is refused with an error. */
  datatype Result<+T, +E> = Ok(value: T) | Err(error: E)
}
