/** Fixed-width unsigned integers of the C sources, with their wrap-around made explicit. */
module Machine {

  type U8 = n: nat | n < 0x100
  type U16 = n: nat | n < 0x1_0000
  type U32 = n: nat | n < 0x1_0000_0000
  type U64 = n: nat | n < 0x1_0000_0000_0000_0000

  type Bytes = seq<U8>

  /** An Ethernet address; `memcmp` on its six bytes is `<` on this big-endian number. */
  type Addr = n: nat | n < 0x1_0000_0000_0000

  /** Conversion of any integer to `uint16_t`. */
  function Wrap16(n: int): U16 { n % 0x1_0000 }

  /** Conversion of any integer to `uint32_t`. */
  function Wrap32(n: int): U32 { n % 0x1_0000_0000 }

  /** Conversion of any integer to `uint64_t`. */
  function Wrap64(n: int): U64 { n % 0x1_0000_0000_0000_0000 }

  /** C's division, which truncates toward zero. */
  function TruncDiv(n: int, d: nat): int
    requires d > 0
  {
    if n >= 0 then n / d else -((-n) / d)
  }
}
