/** Bytes as the source handles them: `bytes` objects hold integers 0..255. */
module Bytes {

  newtype byte = b: int | 0 <= b < 0x100
}
