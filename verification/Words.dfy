/** Machine words: bytes, unsigned 64-bit values and the wrap-around of their arithmetic. */
module Words {
  type byte = x: int | 0 <= x < 0x100
  type u64 = x: int | 0 <= x < 0x1_0000_0000_0000_0000

  const NUL: byte := 0

  const TWO_32: int := 0x1_0000_0000
  const TWO_63: int := 0x8000_0000_0000_0000
  const TWO_64: int := 0x1_0000_0000_0000_0000

  /** What an unsigned 64-bit variable holds after being assigned x. */
  function Wrap(x: int): u64 {
    x % 0x1_0000_0000_0000_0000
  }
}
