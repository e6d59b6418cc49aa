/** Optional values, standing in for Ruby's `nil`, and results that carry
    either a value or the reason an operation failed. */
module Wrappers {

  datatype Option<+T> = None | Some(value: T)

  datatype Result<+T, +E> = Ok(value: T) | Err(error: E)
}
