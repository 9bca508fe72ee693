/** Option and Result, the values that stand for Python's `None`-free lookups and raised exceptions. */
module Outcomes {

  datatype Option<+T> = None | Some(value: T)

  /** `Ok` is a normal return; `Err` is an exception the caller would see. */
  datatype Result<+T, +E> = Ok(value: T) | Err(error: E)
}
