/** Bytes and the ranges of the machine's integers. */
module Machine {

  type Byte = b: nat | b < 256
  type Bytes = seq<Byte>

  const I64_MAX: nat := 0x7FFF_FFFF_FFFF_FFFF
  const U64_LIMIT: nat := 0x1_0000_0000_0000_0000
}
