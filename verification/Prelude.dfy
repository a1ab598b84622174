/** Shared datatypes. */
module Prelude {

  datatype Option<+T> = None | Some(value: T)

  type byte = x: int | 0 <= x < 256

  type Bytes = seq<byte>

  /** The ASCII code of a lowercase hexadecimal digit. */
  function HexDigit(d: nat): byte
    requires d < 16
  {
    if d < 10 then 48 + d else 87 + d
  }

  datatype Result<+T, +E> = Ok(value: T) | Err(error: E)
}
