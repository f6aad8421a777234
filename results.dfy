/** Option and Result values standing in for Python's `None` returns and raised exceptions. */
module Results {

  datatype Option<+T> = None | Some(value: T)

  /** `Ok(value)` is a normal return; `Err(error)` is the exception the Python code raises. */
  datatype Result<+T, +E> = Ok(value: T) | Err(error: E)
}
