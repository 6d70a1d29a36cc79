/** Optional values and results with an error branch, used wherever the
    launcher's Python code raises an exception or may find nothing. */
module Wrappers {

  datatype Option<+T> = None | Some(value: T)

  datatype Result<+T, +E> = Ok(value: T) | Err(error: E)
}
