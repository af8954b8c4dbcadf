/** The ranges of the machine integers that amounts, counts and lengths are kept in. */
module Integers {
  const I64_MAX := 0x7FFF_FFFF_FFFF_FFFF
  const I64_MIN := -0x8000_0000_0000_0000
  const I128_MAX := 0x7FFF_FFFF_FFFF_FFFF_FFFF_FFFF_FFFF_FFFF
  const U64_MAX := 0xFFFF_FFFF_FFFF_FFFF
  const USIZE_MAX := U64_MAX

  type i64 = x: int | I64_MIN <= x <= I64_MAX
}
