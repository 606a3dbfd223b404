/** Option and Result values shared by the modules of this model. */
module Wrappers {
  datatype Option<T> = None | Some(value: T)

  /** A computation that either yields a value or stops with a thrown error. */
  datatype Result<T> = Ok(value: T) | Err(error: string)
}
