/** The range of a 64-bit word. */
module Words {
  const WORD: nat := 0x1_0000_0000_0000_0000
}
