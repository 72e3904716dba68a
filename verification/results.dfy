/** Failure-carrying wrappers shared by the crontab model. */
module Results {

  /** A value that may be absent: Go's nil-able interface values. */
  datatype Option<+T> = None | Some(value: T)

  /** Either a value or an error: Go's `(value, error)` convention. */
  datatype Result<+T, +E> = Success(value: T) | Failure(error: E)
}
