/**
  Fixed-width integers and the ASCII classes shared by the number parser,
  the number formatter and the UART line assembler.
 */
module Bytes {

  /** The C `uint8_t`. */
  type byte = x: int | 0 <= x < 0x100

  /** The C `uint16_t`. */
  type uint16 = x: int | 0 <= x < 0x1_0000

  /** Number of distinct 32-bit patterns; `uint32_t` arithmetic is taken modulo this. */
  const WORD: nat := 0x1_0000_0000

  /** The C `uint32_t`. */
  type uint32 = x: int | 0 <= x < 0x1_0000_0000

  const NUL: byte := 0
  const CR: byte := '\r' as int

  predicate IsDecimalDigit(c: byte) {
    '0' as int <= c <= '9' as int
  }

  predicate IsLowerHexLetter(c: byte) {
    'a' as int <= c <= 'f' as int
  }

  predicate IsUpperHexLetter(c: byte) {
    'A' as int <= c <= 'F' as int
  }

  /** The 22 bytes a C programmer accepts as a hexadecimal digit. */
  predicate IsHexChar(c: byte) {
    IsDecimalDigit(c) || IsLowerHexLetter(c) || IsUpperHexLetter(c)
  }

  /** The 16 bytes of the canonical upper-case hexadecimal alphabet. */
  predicate IsUpperHexChar(c: byte) {
    IsDecimalDigit(c) || IsUpperHexLetter(c)
  }

  /** ASCII upper-casing of a single byte; every other byte is left alone. */
  function ToUpper(c: byte): byte {
    if 'a' as int <= c <= 'z' as int then c - 32 else c
  }

  /** ASCII lower-casing of a single byte; every other byte is left alone. */
  function ToLower(c: byte): byte {
    if 'A' as int <= c <= 'Z' as int then c + 32 else c
  }

  function Pow2(n: nat): (p: nat)
    ensures p > 0
  {
    if n == 0 then 1 else 2 * Pow2(n - 1)
  }

  function Pow16(n: nat): (p: nat)
    ensures p > 0
  {
    if n == 0 then 1 else 16 * Pow16(n - 1)
  }
}
