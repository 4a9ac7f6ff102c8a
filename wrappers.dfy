/** Optional values and results with an error, the two shapes the script's
    functions return: a value or None, a value or a raised exception. */
module Wrappers {

  datatype Option<+T> = None | Some(value: T)

  datatype Result<+T, +E> = Ok(value: T) | Err(error: E)
}
