/** The fixed-width integers of the C code, as ranges of integers; wrap-around is written out where it happens. */
module Words {
  const WRAP: int := 0x1_0000_0000

  type byte = x: int | 0 <= x < 0x100
  type uint32 = x: int | 0 <= x < 0x1_0000_0000
  type uint64 = x: int | 0 <= x < 0x1_0000_0000_0000_0000
  type int32 = x: int | -0x8000_0000 <= x < 0x8000_0000
}
