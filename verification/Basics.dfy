/** What several parts of the model share. */
module Basics {
  type Byte = b: int | 0 <= b < 256

  /** One more than the largest 32-bit number. */
  const WORD := 0x1_0000_0000

  /** The block number that stands for no block. */
  const BLOCK_NULL := 0xffff_ffff

  function Min(a: nat, b: nat): nat {
    if a < b then a else b
  }
}
