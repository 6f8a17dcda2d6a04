/** The outcome of an operation that may stop with an error, as a Python
    script does when an exception escapes. */
module Results {

  datatype Option<+T> = None | Some(value: T)

  datatype Result<+T, +E> = Ok(value: T) | Err(error: E)
}
