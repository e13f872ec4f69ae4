/** The fixed-width unsigned integers of the contract's interface, as bounded naturals. */
module Ints {
  const U32_MAX: nat := 0xffff_ffff
  const U64_MAX: nat := 0xffff_ffff_ffff_ffff
  const U128_MAX: nat := 0xffff_ffff_ffff_ffff_ffff_ffff_ffff_ffff

  type Uint32 = x: nat | x <= U32_MAX
  type Uint64 = x: nat | x <= U64_MAX
  type Uint128 = x: nat | x <= U128_MAX
}
