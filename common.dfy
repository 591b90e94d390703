/** Small shared vocabulary: an optional value, bytes and the protocol's 32-bit unsigned integers. */
module Common {

  datatype Option<+T> = None | Some(value: T)

  /** One past the largest `u32`. */
  const U32_LIMIT: int := 0x1_0000_0000

  /** Wayland object ids, sizes and strides are `u32` on the wire. */
  type u32 = x: int | 0 <= x < U32_LIMIT

  /** A `u8`: pixel bytes and the bytes of shared-memory buffers. */
  newtype byte = x: int | 0 <= x < 256

  /** Rust's `max` on sizes. */
  function Max(a: int, b: int): int {
    if a < b then b else a
  }
}
