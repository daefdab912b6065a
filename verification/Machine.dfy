/**
 The fixed-width integers of the C code, and the platform's page size.
 */
module Machine {

  const PAGE_SIZE: nat := 4096

  /** Conversion to uint32_t. */
  function U32(x: int): (r: nat)
    ensures r < 0x1_0000_0000
  {
    x % 0x1_0000_0000
  }

  /** Adding to a wrapped sum wraps to the same value. */
  lemma U32Add(a: int, b: int)
    ensures U32(U32(a) + b) == U32(a + b)
  {
  }

  /** Conversion to uint16_t. */
  function U16(x: int): (r: nat)
    ensures r < 0x1_0000
  {
    x % 0x1_0000
  }

  /** Conversion to int16_t. */
  function I16(x: int): int {
    (x + 0x8000) % 0x1_0000 - 0x8000
  }
}
