/** Failure-carrying values shared by the modules of this model. */
module Wrappers {

  /** A value that may be missing, used for operations that can fail without saying why. */
  datatype Option<+T> = None | Some(value: T)

  /** Either a result or the error a Python function would have raised. */
  datatype Result<+T, +E> = Ok(value: T) | Err(error: E)
}
