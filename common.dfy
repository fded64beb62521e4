/** Small shared vocabulary: optional values and bytes. */
module Common {

  /** A value that may be absent, standing in for a null pointer or a missing result. */
  datatype Option<+T> = None | Some(value: T)

  /** One unsigned byte, as read by `fgetc` or stored in a buffer. */
  type byte = x: int | 0 <= x < 256

  /** 2^64, the modulus of the source's `unsigned long` and `size_t` arithmetic. */
  const TWO_TO_64: int := 0x1_0000_0000_0000_0000
}
