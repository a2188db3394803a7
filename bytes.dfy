/** Machine integer and byte types, with their ranges written out. */
module Bytes {

  /** An unsigned 8-bit integer (Rust's `u8`). */
  type byte = x: int | 0 <= x < 0x100

  /** An unsigned 32-bit integer (Rust's `u32`). */
  type u32 = x: int | 0 <= x < 0x1_0000_0000

  /** An unsigned 64-bit integer (Rust's `u64`). */
  type u64 = x: int | 0 <= x < 0x1_0000_0000_0000_0000

  /** `n` zero bytes, the content of a freshly zeroed buffer such as `[0u8; n]`. */
  function Zeros(n: nat): (r: seq<byte>)
    ensures |r| == n
    ensures forall i :: 0 <= i < n ==> r[i] == 0
  {
    seq(n, _ => 0)
  }
}
