/** Failure-carrying wrappers shared by the other modules. */
module Results {

  /** A value that may be absent: Python's "no such element" outcomes. */
  datatype Option<+T> = None | Some(value: T)

  /** The outcome of a computation that may abort with an error. */
  datatype Result<+T, +E> = Ok(value: T) | Err(error: E)
}
