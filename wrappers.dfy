/** Result, used for the source's panics. */
module Wrappers {
  datatype Result<+T, +E> = Ok(value: T) | Err(error: E)
}
