/** What several modules share: optional values and the limits of the unsigned integer types. */
module Common {
  datatype Option<+T> = None | Some(value: T)

  const U16_LIMIT := 0x1_0000
  const U32_LIMIT := 0x1_0000_0000
  const U64_LIMIT := 0x1_0000_0000_0000_0000

  type U32 = v: nat | v < U32_LIMIT
}
