/** Option and Result: the error paths of the engine, instead of C++ exceptions and sentinels. */
module Wrappers {

  datatype Option<+T> = None | Some(value: T)

  datatype Result<+T, +E> = Ok(value: T) | Err(error: E)
}
