/** Optional values and success-or-failure outcomes. */
module Results {

  datatype Option<+T> = None | Some(value: T)

  /** The result of an operation that raises `E` on failure. */
  datatype Result<+T, +E> = Ok(value: T) | Err(error: E)
}
