/** Failure-carrying values shared by the other modules. */
module Wrappers {

  /** A nullable column value or an absent row. */
  datatype Option<+T> = None | Some(value: T)

  /** A value, or the error an operation raises instead. */
  datatype Result<+T, +E> = Ok(value: T) | Err(error: E)
}
