/** The unsigned 32-bit words that mach messages are made of. */
module Word32 {
  const MODULUS := 0x1_0000_0000

  type word = x: int | 0 <= x < 0x1_0000_0000

  /** What C keeps of an integer stored in an `unsigned int`. */
  function U32(x: int): (w: word)
    ensures 0 <= x < MODULUS ==> w == x
  {
    x % MODULUS
  }

  /** The same bits read as an `int`. */
  function Signed(w: word): (value: int) {
    if w < 0x8000_0000 then w else w - MODULUS
  }
}
