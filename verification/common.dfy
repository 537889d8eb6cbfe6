/** Value types shared by every stage of the blind-index pipeline. */
module Common {

  /** One octet, as Rust's `u8`. */
  type byte = x: int | 0 <= x < 0x100

  /** A fingerprint, as Rust's `u32`. */
  type u32 = x: int | 0 <= x < 0x1_0000_0000

  datatype Option<+T> = None | Some(value: T)

  /** The library's `Result<_, String>`: a value or a human-readable error message. */
  datatype Result<+T> = Ok(value: T) | Err(message: string)
}

