/** Option and Result, the failure-carrying values shared by the tokenizer,
    the class resolver and the compiler. */
module Results {
  datatype Option<T> = None | Some(value: T)

  /** A computation that either yields a value or stops with an error,
      the model of a Python exception that aborts the caller. */
  datatype Result<T, E> = Ok(value: T) | Err(error: E)
}
