/** Failure-carrying values shared by every layer. A Go `(T, error)` pair is a
    Result; a Go function that returns only `error` is an Outcome. */
module Results {

  datatype Option<+T> = None | Some(value: T)

  datatype Result<+T, +E> = Ok(value: T) | Err(error: E)

  /** Pass is a nil error. */
  datatype Outcome<+E> = Pass | Fail(error: E)
}
