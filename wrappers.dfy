/** Optional values and results with an error, as the source's `None`
    returns and its error dictionaries. */
module Wrappers {

  datatype Option<+T> = None | Some(value: T)

  datatype Result<+T, +E> = Ok(value: T) | Err(error: E)
}
