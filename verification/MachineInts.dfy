// Fixed-width integers of the C and C++ sources. Values are mathematical integers; every
// conversion that can lose bits in the source is written with one of the functions below.
module MachineInts {
  type byte = x: int | 0 <= x < 0x100
  type int16 = x: int | -0x8000 <= x < 0x8000
  type uint32 = x: int | 0 <= x < 0x1_0000_0000

  /** Conversion to `int16_t`: two's complement, modulo 2^16. */
  function ToInt16(x: int): int16 {
    (x + 0x8000) % 0x1_0000 - 0x8000
  }

  /** Conversion to `uint8_t`. */
  function ToByte(x: int): byte {
    x % 0x100
  }

  /** Conversion to `uint32_t`. */
  function ToUint32(x: int): uint32 {
    x % 0x1_0000_0000
  }
}
