/** Optional values and results with an error, used wherever App.js returns early or yields undefined. */
module Wrappers {

  datatype Option<+T> = None | Some(value: T)

  datatype Result<+T, +E> = Ok(value: T) | Err(error: E)
}
