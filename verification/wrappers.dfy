/** Optional values and results with an error payload, used throughout the model. */
module Wrappers {

  /** A Python `Optional[...]` value: `None` or a present value. */
  datatype Option<+T> = None | Some(value: T)

  /** The outcome of a validation: the built value, or the list of errors found. */
  datatype Result<+R, +E> = Ok(value: R) | Err(error: E)
}
