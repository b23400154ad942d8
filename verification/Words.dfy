/** Arithmetic of machine words. */
module Words {

  /** Conversion to a signed 16-bit value. */
  function Wrap16(x: int): (w: int)
    ensures -0x8000 <= w < 0x8000
  {
    (x + 0x8000) % 0x1_0000 - 0x8000
  }

  /** The conversion keeps the value modulo 2^16. */
  lemma WrapKeepsLowBits(x: int)
    ensures (x - Wrap16(x)) % 0x1_0000 == 0
  {
  }
}
