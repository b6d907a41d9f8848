/** Outcomes of view queries. The views signal failure by raising Python
    exceptions; here each failure is a value naming the exception class. */
module Results {

  /** The exception classes the views raise. */
  datatype Error = KeyError | ValueError | TypeError | IndexError

  /** Either the value a query returns or the exception it raises. */
  datatype Result<+T> = Ok(value: T) | Err(error: Error)

  /** A value, or Python's silent `None`. */
  datatype Option<+T> = None | Some(value: T)
}
