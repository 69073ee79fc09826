/** Small failure-carrying datatypes shared by the whole model. */
module Base {

  /** A value that may be absent; `None` plays the part of Python's `None`. */
  datatype Option<+T> = None | Some(value: T)

  /** The outcome of an operation that raises instead of returning. */
  datatype Result<+T, +E> = Ok(value: T) | Err(error: E)
}
