/** Optional values and results with an error, shared by the library ledger and the calculator. */
module Wrappers {

  datatype Option<+T> = None | Some(value: T)

  /** Either the new value an operation produced, or the error it failed with */
  datatype Result<+R, +E> = Ok(value: R) | Err(error: E)
}
