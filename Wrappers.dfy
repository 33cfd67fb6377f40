/** Optional values and results that carry an error, for the places where the
    source returns `null`/`undefined` or throws. */
module Wrappers {

  datatype Option<T> = None | Some(value: T)

  datatype Result<T, E> = Ok(value: T) | Err(error: E)
}
