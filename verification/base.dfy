/** Failure-carrying wrappers shared by every module of the model:
    `Option` for Rust's `Option<T>` and `Result` for `Result<T, E>`. */
module Base {

  datatype Option<+T> = None | Some(value: T)

  datatype Result<+T, +E> = Ok(value: T) | Err(error: E)

  /** Rust's `u8`, `u16` and `u32` value ranges. */
  type u8 = x: nat | x < 0x100
  type u16 = x: nat | x < 0x1_0000
  type u32 = x: nat | x < 0x1_0000_0000
}
