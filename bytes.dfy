/** Machine types of the trie: bytes of keys and 32-bit value handles. */
module Bytes {

  /** A byte of a key or of an encoded buffer. */
  newtype u8 = x: int | 0 <= x < 256

  /** A value handle (the trie stores `uint32` indexes into caller-owned storage). */
  newtype u32 = x: int | 0 <= x < 0x1_0000_0000

  datatype Option<+T> = None | Some(value: T)
}
