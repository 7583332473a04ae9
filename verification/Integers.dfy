/** Bytes and machine words as ranges of the unbounded integers. */
module Integers {

  const U32_END: nat := 0x1_0000_0000
  const U64_END: nat := 0x1_0000_0000_0000_0000

  type byte = n: nat | n < 256

  type u64 = n: nat | n < U64_END

  function Power2(bits: nat): (p: nat)
    ensures p > 0
  {
    if bits == 0 then 1 else 2 * Power2(bits - 1)
  }
}
