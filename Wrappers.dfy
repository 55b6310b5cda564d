/** Optional values and error-carrying results, used for the `None` values of a
    decoded payload and for the errors raised by the storage layer. */
module Wrappers {

  datatype Option<+T> = None | Some(value: T)

  datatype Result<+T, +E> = Ok(value: T) | Err(error: E)
}
