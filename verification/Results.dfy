/** Outcome of an operation that the source ends with either a value or an error. */
module Results {
  datatype Result<+T> = Ok(value: T) | Err(error: string)

  datatype Option<+T> = None | Some(value: T)
}
