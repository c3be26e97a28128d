/** Option, Result and Outcome values for the nil results and exceptions of the Ruby source. */
module Wrappers {

  /** A Ruby value that may be nil. */
  datatype Option<+T> = None | Some(value: T)

  /** A value or the exception raised instead of returning it. */
  datatype Result<+T, +E> = Ok(value: T) | Err(error: E)

  /** Completion of a method that returns nothing of interest, or the exception it raised. */
  datatype Outcome<+E> = Pass | Fail(error: E)
}
