/** Optional values and results shared by the model. */
module Wrappers {

  /** A value that may be absent. */
  datatype Option<+T> = None | Some(value: T)

  /** Either a value or an error describing why there is none. */
  datatype Result<+T, +E> = Ok(value: T) | Err(error: E)
}
