/** Word sizes and the order of naturals. */
module Numbers {

  const U32_MAX: nat := 0xFFFF_FFFF
  const TWO_64: nat := 0x1_0000_0000_0000_0000

  function Max(a: nat, b: nat): (m: nat) {
    if a < b then b else a
  }

  function Min(a: nat, b: nat): (m: nat) {
    if a < b then a else b
  }
}
