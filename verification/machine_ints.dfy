/** Fixed-width unsigned integers of the C++ source: `uint` (32 bits) and
    `ulong` (64 bits), with their wrap-around written out. */
module MachineInts {

  const UINT32_LIMIT: int := 0x1_0000_0000
  const UINT64_LIMIT: int := 0x1_0000_0000_0000_0000

  type uint32 = x: int | 0 <= x < 0x1_0000_0000
  type uint64 = x: int | 0 <= x < 0x1_0000_0000_0000_0000

  /** `max_ulong`, the "run indefinitely" sentinel for the step target. */
  const MAX_ULONG: uint64 := 0xFFFF_FFFF_FFFF_FFFF

  /** A `(uint)` cast of a non-negative value: keeps the low 32 bits. */
  function ToUint32(x: nat): uint32 {
    (x % UINT32_LIMIT) as uint32
  }

  /** `a * b` on two `ulong` operands: the product modulo 2^64. */
  function MulUint64(a: uint64, b: uint64): nat {
    (a as int * b as int) % UINT64_LIMIT
  }
}
