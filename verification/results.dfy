/** Optional values and fallible results, the Rust `Option` and `Result` of the loader. */
module Results {

  datatype Option<+T> = None | Some(value: T)

  datatype Result<+T, +E> = Success(value: T) | Failure(error: E)
}
