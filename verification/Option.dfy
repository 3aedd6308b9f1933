/** Optional values and results that carry an error, in place of nil pointers and error returns. */
module Option {
  datatype Option<+T> = None | Some(value: T)

  datatype Result<+T, +E> = Ok(value: T) | Err(error: E)
}
