/** Small value types shared by the other modules. */
module Common {
  datatype Option<+T> = None | Some(value: T)

  /** The source's `(value, error)` pairs; the error text is not modelled, only which error it is. */
  datatype Result<+T, +E> = Ok(value: T) | Err(error: E)
}
