/** Absent values, and what a parser makes of a text. */
module Wrappers {
  datatype Option<+T> = None | Some(value: T)

  datatype ParseResult<+T, +E> = Ok(value: T) | Err(error: E)
}
