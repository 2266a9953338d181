/** Success/failure values standing in for Python's exceptions. */
module Results {

  /** A value that may be absent: the outcome of a parse that can reject its input. */
  datatype Option<+T> = None | Some(value: T)

  /** Either a computed value or the error the Python code would raise. */
  datatype Result<+T, +E> = Ok(value: T) | Err(error: E)
}
