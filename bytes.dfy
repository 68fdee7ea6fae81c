/** Byte-level vocabulary shared by the checksum, the SLIP framer and the bus engine. */
module Bytes {

  /** An unsigned 8-bit value (`uint8_t`). */
  type Byte = x: int | 0 <= x < 0x100

  /** An unsigned 16-bit value (`uint16_t`). */
  type Word = x: int | 0 <= x < 0x1_0000

  /** Low byte of a 16-bit value: what x86 stores first. */
  function LowByte(w: Word): Byte { w % 0x100 }

  /** High byte of a 16-bit value: what x86 stores second. */
  function HighByte(w: Word): Byte { w / 0x100 }

  /** The 16-bit value stored little-endian as `lo`, `hi`. */
  function Le16(lo: Byte, hi: Byte): Word {
    lo + 0x100 * hi
  }

  /** Storing a 16-bit value as two bytes and reading it back loses nothing. */
  lemma Le16OfBytes(w: Word)
    ensures Le16(LowByte(w), HighByte(w)) == w
  {
  }

  function Min(a: int, b: int): int { if a < b then a else b }
}
