/**
 * Fixed-width unsigned integers of the simulator: `unsigned` (32 bits) and
 * `new_addr_type` (an `unsigned long long`, 64 bits).
 */
module MachineTypes {

  const TwoTo32: int := 0x1_0000_0000

  newtype uint32 = x: int | 0 <= x < 0x1_0000_0000
  newtype uint64 = x: int | 0 <= x < 0x1_0000_0000_0000_0000

  /**
   * The implicit C++ conversion of a 64-bit value to `unsigned`: the value
   * modulo 2^32. It is the identity exactly on values that fit in 32 bits.
   */
  function LowWord(x: uint64): (r: uint32)
    ensures (x as int - r as int) % TwoTo32 == 0
    ensures r as int == x as int <==> x as int < TwoTo32
  {
    (x as int % TwoTo32) as uint32
  }
}
