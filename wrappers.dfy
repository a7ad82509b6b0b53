/** Option and Result values used for the absent results and assertion failures of the puzzle code. */
module Wrappers {

  datatype Option<T> = None | Some(value: T)

  /** Ok carries a computed value; Err names the check of the C code that would have failed. */
  datatype Result<T, E> = Ok(value: T) | Err(error: E)
}
