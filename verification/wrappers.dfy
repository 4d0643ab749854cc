/** Option and Result, used wherever the kernel returns a null pointer or a failure flag. */
module Wrappers {
  datatype Option<+T> = None | Some(value: T)

  datatype Result<+T, +E> = Ok(value: T) | Err(error: E)
}
