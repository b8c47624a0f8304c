/** Small shared vocabulary of the model: bytes, optional values, results and integer minimum. */
module Basics {

  /** An unsigned 8-bit value (C++ `uint8_t`, the element of a file's contents). */
  type byte = x: int | 0 <= x < 256

  datatype Option<+T> = None | Some(value: T)

  /** A value, or the error that the source reports by throwing. */
  datatype Result<+T, +E> = Ok(value: T) | Err(error: E)

  function Min(a: int, b: int): (m: int)
    ensures m <= a && m <= b
    ensures m == a || m == b
  {
    if a <= b then a else b
  }
}
