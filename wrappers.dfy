/** Optional values and success-or-failure results, used wherever the source
    returns `None`, raises an exception or returns a `result.Result`. */
module Wrappers {

  datatype Option<+T> = None | Some(value: T)

  datatype Result<+T, +E> = Ok(value: T) | Err(error: E)

  /** The exceptions the core raises itself (Python's `ValueError`). */
  datatype Error = ValueError(message: string)
}
