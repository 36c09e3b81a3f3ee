/** Failure-carrying values shared by the payload builders. */
module Results {

  /** An optional value, as Python's `None` or a present value. */
  datatype Option<+T> = None | Some(value: T)

  /** The outcome of a form handler: the payload, or the error message the
      handler renders back into its form template. */
  datatype Result<+T> = Ok(value: T) | Err(message: string)
}
