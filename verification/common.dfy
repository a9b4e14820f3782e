/** Shared vocabulary: optional values and octets. */
module Common {

  /** A value that may be absent, such as a query parameter that was not sent. */
  datatype Option<+T> = None | Some(value: T)

  /** One octet of a decoded payload. */
  type byte = x: int | 0 <= x < 256

  /** Largest value (exclusive) of the unsigned integer fields of the frame. */
  const Two16: nat := 0x1_0000
  const Two32: nat := 0x1_0000_0000
}
