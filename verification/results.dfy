/** Error-or-value results for the operations that throw in the source. */
module Results {

  /** `Ok` carries the value a function returns; `Err` stands for the exception it throws. */
  datatype Result<+T, +E> = Ok(value: T) | Err(error: E)

  datatype Option<+T> = None | Some(value: T)
}
