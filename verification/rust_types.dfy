/** The two sum types of Rust's standard library that the model needs. */
module RustTypes {

  /** Rust's `Option`: the last logged bucket, an exit code, a found duration. */
  datatype Option<T> = None | Some(value: T)

  /** Rust's `Result`; the model returns `Err` where the program would panic. */
  datatype Result<T, E> = Ok(value: T) | Err(error: E)
}
