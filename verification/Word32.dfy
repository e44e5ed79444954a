/**
 The range of a 32-bit word, which the kernel's unsigned arithmetic wraps in.
 */
module Word32 {
  const WORD: int := 0x1_0000_0000
}
