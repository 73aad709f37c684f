/** Option and Result, standing in for Python's `None` and for raised exceptions. */
module Wrappers {

  datatype Option<+T> = None | Some(value: T)

  /** `Err` carries the exception a Python function would have raised. */
  datatype Result<+T, +E> = Ok(value: T) | Err(error: E)
}
