/** Option and Result: Go's (value, ok) and (value, error) return pairs. */
module Wrappers {

  /** `None` stands for Go's nil / `ok == false`. */
  datatype Option<+T> = None | Some(value: T)

  /** `Err` carries the text of a Go `error`. */
  datatype Result<+T, +E> = Ok(value: T) | Err(error: E)
}
