/** Option and Result wrappers, and the Python exceptions the core raises. */
module Results {

  datatype Option<+T> = None | Some(value: T)

  datatype Result<+T, +E> = Ok(value: T) | Err(error: E)

  /** The two Python exceptions the modelled code can raise. */
  datatype Exception =
    | AssertionError  // a failed `assert` statement
    | ValueError      // a numeric accessor with no value and no fallback
}
