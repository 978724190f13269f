/** Failure-carrying return types: `Option` for Python's `None`-or-value results
    and `Result` for operations that may raise. */
module Wrappers {

  datatype Option<+T> = None | Some(value: T)

  /** `Err` stands for an exception the Python code raises and does not catch. */
  datatype Result<+T, +E> = Ok(value: T) | Err(error: E)
}
