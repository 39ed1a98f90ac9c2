/** The outcome of an operation of the script that can stop with an error. */
module Results {
  datatype Result<T, E> = Ok(value: T) | Err(error: E)
}
