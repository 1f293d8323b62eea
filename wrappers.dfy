/** Optional values and results, used where the JavaScript source has `null`/`undefined`
    or an error-first callback. */
module Wrappers {

  datatype Option<+T> = None | Some(value: T)

  datatype Result<+T, +E> = Ok(value: T) | Err(error: E)
}
