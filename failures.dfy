/** The exceptions the core raises, as values. */
module Failures {

  /** IllegalArgumentException (too few points) and IndexOutOfBoundsException. */
  datatype Error = IllegalArgument(message: string) | IndexOutOfBounds(index: int)

  /** A reference that may be null. */
  datatype Option<T> = None | Some(value: T)

  /** The value of a call that either returns a value or throws. */
  datatype Result<T> = Ok(value: T) | Err(error: Error)

  /** The outcome of a call that returns nothing or throws. */
  datatype Outcome = Pass | Fail(error: Error)
}
