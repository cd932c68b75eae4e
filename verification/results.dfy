/** Failure-carrying values used in place of the exceptions the search module raises. */
module Results {

  /** A value that may be absent: a file that may be missing, an error that may not have happened. */
  datatype Option<+T> = None | Some(value: T)

  /** Either a computed value or the error that stopped the computation. */
  datatype Result<+T, +E> = Success(value: T) | Failure(error: E)

  /** A check that either passes silently or fails with an error. */
  datatype Outcome<+E> = Pass | Fail(error: E)
}
