/** The bounds of the machine integers. */
module Ints {
  const U32_SIZE: nat := 0x1_0000_0000
  const U32_MAX: nat := U32_SIZE - 1
  const U64_SIZE: nat := 0x1_0000_0000_0000_0000
  const U64_MAX: nat := U64_SIZE - 1
  const I64_SIZE: nat := 0x8000_0000_0000_0000
  const I64_MAX: nat := I64_SIZE - 1
}
