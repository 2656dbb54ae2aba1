/** Failure-carrying values shared by every module: Go's `(value, error)` pairs
    become `Result`, and nullable answers from collaborators become `Option`. */
module Results {

  datatype Option<+T> = None | Some(value: T)

  /** A Go error is modelled by its message. */
  datatype Result<+T> = Ok(value: T) | Err(error: string)
}
