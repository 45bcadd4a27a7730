/** Optional values and results with an error, used where the source
    returns nil or aborts with a panic. */
module Wrappers {

  datatype Option<+T> = None | Some(value: T)

  datatype Result<+T, +E> = Ok(value: T) | Err(error: E)
}
