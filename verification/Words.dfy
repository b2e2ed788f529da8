/** Fixed-width unsigned integers and small datatypes shared by every other module. */
module Words {
  type u8 = x: int | 0 <= x < 0x100
  type u16 = x: int | 0 <= x < 0x1_0000
  type u32 = x: int | 0 <= x < 0x1_0000_0000

  const UINT32_MAX: u32 := 0xFFFF_FFFF

  datatype Option<+T> = None | Some(value: T)

  /** `x + 1` on a `uint32_t`. */
  function Inc32(x: u32): u32 {
    (x + 1) % 0x1_0000_0000
  }

  /** `x - 1` on a `uint32_t`. */
  function Dec32(x: u32): u32 {
    (x - 1) % 0x1_0000_0000
  }

  /** The value of `(int)x` for a `uint32_t` x: the top half of the range is negative. */
  function ToInt32(x: u32): int {
    if x < 0x8000_0000 then x else x - 0x1_0000_0000
  }
}
