/** Bytes as numbers, and bytes as eight bits with the C operators on them. */
module Bytes {
  import opened BinaryAlgebra

  type Octet = x: int | 0 <= x < 0x100

  type Byte = b: Bits | |b| == 8 witness seq(8, i => false)

  /** a ^ b */
  function Xor8(a: Byte, b: Byte): (r: Byte)
  {
    Plus(a, b)
  }

  /** a | b */
  function Or8(a: Byte, b: Byte): (r: Byte)
  {
    seq(8, i requires 0 <= i < 8 => a[i] || b[i])
  }

  /** 0x00 */
  function NoBits(): (b: Byte)
  {
    seq(8, i => false)
  }

  /** 0x80 */
  function TopBit(): (b: Byte)
  {
    seq(8, i => i == 7)
  }
}
