/** Optional values and results carrying either a value or an error,
    standing in for the exceptions the index generator raises. */
module Wrappers {

  datatype Option<+T> = None | Some(value: T)

  datatype Result<+R, +E> = Ok(value: R) | Err(error: E)
}
