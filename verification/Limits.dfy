/** Sizes that the hardware fixes. */
module Limits {
  const LIMIT_16 := 0x1_0000
  const LIMIT_32 := 0x1_0000_0000
  const LIMIT_64 := 0x1_0000_0000_0000_0000
  const PAGE_SIZE := 0x1000
}
