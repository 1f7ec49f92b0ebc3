/** Option and Result, the two library enums every snapshot of the parser leans on. */
module Core {

  /** Rust's `Option<T>`. */
  datatype Option<+T> = None | Some(value: T)

  /** Rust's `Result<T, E>`. */
  datatype Result<+T, +E> = Ok(value: T) | Err(error: E)
}
