/** Optional values and results with an error, as the programs use them
    (Rust's `Option` and `Result`, Python's `None` and `exit(1)`). */
module Results {

  datatype Option<+T> = None | Some(value: T)

  datatype Result<+T, +E> = Ok(value: T) | Err(error: E)
}
