/** Shared primitive types of the colour library: Rust's fixed-width
    unsigned integers as subset types, and the Option/Result wrappers that
    model the library's `Result` returns and its panics on decode. */
module Base {

  /** Rust `u8`. */
  type U8 = x: int | 0 <= x < 256

  /** Rust `u16`. */
  type U16 = x: int | 0 <= x < 65536

  datatype Option<+T> = None | Some(value: T)

  datatype Result<+T, +E> = Ok(value: T) | Err(error: E)

  /** The message every `get` accessor returns for an unknown component. */
  function NoSuchComponent(name: string): string
  {
    "No color component named -> " + name
  }
}
