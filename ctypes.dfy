/**
 * The fixed-width integer types of Swift and C that cross the bus, the
 * platform word, and the conversions the coding containers apply.
 */
module CTypes {
  type UInt8 = x: int | 0 <= x < 0x100
  type Int8 = x: int | -0x80 <= x < 0x80
  type Int16 = x: int | -0x8000 <= x < 0x8000
  type UInt16 = x: int | 0 <= x < 0x1_0000
  type Int32 = x: int | -0x8000_0000 <= x < 0x8000_0000
  type UInt32 = x: int | 0 <= x < 0x1_0000_0000
  type Int64 = x: int | -0x8000_0000_0000_0000 <= x < 0x8000_0000_0000_0000
  type UInt64 = x: int | 0 <= x < 0x1_0000_0000_0000_0000

  /** `MemoryLayout<Int>.size`: 8 on 64-bit platforms, otherwise 4. */
  datatype WordSize = Word64 | Word32

  /** The range of Swift's `Int` on the given platform. */
  predicate IntFits(i: int, w: WordSize)
  {
    match w
    case Word64 => -0x8000_0000_0000_0000 <= i < 0x8000_0000_0000_0000
    case Word32 => -0x8000_0000 <= i < 0x8000_0000
  }

  /** The range of Swift's `UInt` on the given platform. */
  predicate UIntFits(u: int, w: WordSize)
  {
    match w
    case Word64 => 0 <= u < 0x1_0000_0000_0000_0000
    case Word32 => 0 <= u < 0x1_0000_0000
  }

  /** `UInt8(bitPattern:)`: the byte with the same two's-complement bits. */
  function UInt8BitPattern(i: Int8): (u: UInt8)
    ensures u % 0x100 == i % 0x100
  {
    if i < 0 then i + 0x100 else i
  }

  /** `Int8(bitPattern:)`: the signed byte with the same bits. */
  function Int8BitPattern(u: UInt8): (i: Int8)
    ensures i % 0x100 == u % 0x100
  {
    if u >= 0x80 then u - 0x100 else u
  }

  /** The two bit-pattern conversions invert each other. */
  lemma BitPatternRoundTrip(i: Int8, u: UInt8)
    ensures Int8BitPattern(UInt8BitPattern(i)) == i
    ensures UInt8BitPattern(Int8BitPattern(u)) == u
  {
  }
}
