/** The machine's unsigned char, unsigned int and int. */
module Machine {
  type Byte = x: int | 0 <= x < 256

  type U32 = x: int | 0 <= x < 0x1_0000_0000

  /** Conversion of an unsigned int to int. */
  function ToInt(n: U32): int {
    if n < 0x8000_0000 then n else n - 0x1_0000_0000
  }
}
