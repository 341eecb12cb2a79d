/** Option and Result values, used where the Python code returns None or raises. */
module Results {

  /** A value that may be absent (Python's `None`). */
  datatype Option<+T> = None | Some(value: T)

  /** Either a computed value or the error that ended the computation. */
  datatype Result<+T, +E> = Success(value: T) | Failure(error: E)
}
