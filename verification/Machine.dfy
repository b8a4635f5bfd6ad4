// Fixed-width integer ranges of the i386 target.
module Machine {
  type uint8 = x: int | 0 <= x < 0x100
  type uint16 = x: int | 0 <= x < 0x1_0000
  type uint32 = x: int | 0 <= x < 0x1_0000_0000

  // A machine word, where its bits matter.
  type word = bv32

  const TWO_TO_32 := 0x1_0000_0000

  // x - y on unsigned 32-bit operands.
  function Sub32(x: uint32, y: uint32): uint32 {
    if x >= y then x - y else x - y + TWO_TO_32
  }

  // x++ on an unsigned 32-bit variable.
  function Succ32(x: uint32): uint32 {
    if x + 1 == TWO_TO_32 then 0 else x + 1
  }

  datatype Option<+T> = None | Some(value: T)
}
