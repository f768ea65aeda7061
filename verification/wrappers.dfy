/** Optional values and the outcome of an operation that can be refused. */
module Wrappers {

  /** A nullable column or a lookup that may find nothing. */
  datatype Option<+T> = None | Some(value: T)

  /** The outcome of an operation: its result, or the error it reported after rolling back. */
  datatype Result<+T, +E> = Ok(value: T) | Err(error: E)
}
