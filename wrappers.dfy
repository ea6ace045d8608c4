/** Optional values and results with an error value, standing in for the
    `null`/`undefined` values and rejected promises of the front end. */
module Wrappers {

  datatype Option<+T> = None | Some(value: T)

  datatype Result<+R, +E> = Ok(value: R) | Err(error: E)
}
