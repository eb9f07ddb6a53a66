/** The optional values and error returns the command-line tool works with. */
module Wrappers {

  /** An optional command-line value: `None` when the option was not given. */
  datatype Option<+T> = None | Some(value: T)

  /** A value, or the exception the Python code would raise instead. */
  datatype Result<+T, +E> = Ok(value: T) | Err(error: E)
}
