/** Values that stand for Python's None and for the exceptions the cache lets escape. */
module Outcomes {

  /** A value that may be missing (Python's None, or a dictionary miss). */
  datatype Option<T> = None | Some(value: T)

  /** The exceptions that reach the caller of the cache. */
  datatype Error =
    | KeyError                  // `del` of a key the store does not hold
    | IndexError                // `pop(0)` on the exhausted key snapshot in trim
    | LoaderError(reason: string) // whatever the user's loader raised

  /** The value of an operation that either returns or raises. */
  datatype Result<T> = Ok(value: T) | Err(error: Error)

  /** An operation that returns nothing, or raises. */
  datatype Outcome = Pass | Fail(error: Error)
}
