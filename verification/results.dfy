/** Optional values and success/failure outcomes used across the model. */
module Results {

  /** A value that may be absent: Python's `None` or a pandas missing value. */
  datatype Option<+T> = None | Some(value: T)

  /** The outcome of a whole analysis run: a value, or the reason it failed. */
  datatype Result<+T, +E> = Success(value: T) | Failure(error: E)
}
