/** Optional values and success/failure results shared by the modules of the model. */
module Wrappers {

  /** A value that may be absent; pandas' NaT and Python's None are modelled as None. */
  datatype Option<+T> = None | Some(value: T)

  /** The outcome of an operation that may raise: Ok carries the result, Err the exception. */
  datatype Result<+R, +E> = Ok(value: R) | Err(error: E)
}
