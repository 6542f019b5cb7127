/** Optional values and results with an error, as the request handlers use
    them: a form field that may be absent, a request that ends in an HTTP
    error or in a plan. */
module Wrappers {

  datatype Option<T> = None | Some(value: T)

  datatype Result<T, E> = Ok(value: T) | Err(error: E)
}
