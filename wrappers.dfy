/** Optional values and results with an error value, used for the
    source's `None` returns and its HTTP error responses. */
module Wrappers {

  datatype Option<T> = None | Some(value: T)

  datatype Result<T, E> = Ok(value: T) | Err(error: E)
}
