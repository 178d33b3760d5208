/** What the component models share. */
module Outcomes {
  /** `undefined` / `null` in the source. */
  datatype Option<+T> = None | Some(value: T)

  /** A normal return, or the exception that was thrown instead. */
  datatype Result<+T, +E> = Ok(value: T) | Err(error: E)

  type Byte = b: int | 0 <= b < 256

  function Least(a: int, b: int): int {
    if a <= b then a else b
  }
}
