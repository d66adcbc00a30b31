/** The optional values and results shared across the crossword model. */
module Wrappers {

  /** A value that may be absent (the source's `null`/`undefined`). */
  datatype Option<+T> = None | Some(value: T)

  /** Either a value or the error the source would throw. */
  datatype Result<+R, +E> = Success(value: R) | Failure(error: E)
}
