/** Failure-carrying wrappers used across the model: `Option` for a lookup
    that may find nothing (a SQL NULL, a missing map entry, an empty result
    set) and `Result` for an operation that may raise a fatal error. */
module Results {

  datatype Option<+T> = None | Some(value: T)

  datatype Result<+T, +E> = Ok(value: T) | Err(error: E)
}
