/** Optional values and results with an error, standing for Python's `None` and raised exceptions. */
module Options {

  datatype Option<+T> = None | Some(value: T)

  datatype Result<+T, +E> = Ok(value: T) | Err(error: E)
}
