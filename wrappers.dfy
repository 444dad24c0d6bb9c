/** Option and Result: the absent value and the raised error of the scripts. */
module Wrappers {
  datatype Option<T> = None | Some(value: T)

  /** A Python exception (or a non-zero exit status) becomes `Err` with a short reason. */
  datatype Result<T> = Ok(value: T) | Err(error: string)
  {
    predicate IsFailure() { Err? }
  }
}
