/** Option and Result, the two failure-carrying wrappers the model uses. */
module Wrappers {

  /** `None` stands for Python's `None` (or an absent dictionary key). */
  datatype Option<+T> = None | Some(value: T)

  /** `Err` stands for an exception the Python code would raise. */
  datatype Result<+T, +E> = Ok(value: T) | Err(error: E)
}
