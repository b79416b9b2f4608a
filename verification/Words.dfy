/** Machine words as numbers with their range. */
module Words {
  import opened Powers

  const TWO_31: nat := 0x8000_0000
  const TWO_32: nat := 0x1_0000_0000
  const TWO_63: nat := 0x8000_0000_0000_0000
  const TWO_64: nat := 0x1_0000_0000_0000_0000
  const TWO_128: nat := 0x1_0000_0000_0000_0000_0000_0000_0000_0000

  type Byte = x: nat | x < 0x100
  type Word16 = x: nat | x < 0x1_0000
  type Word32 = x: nat | x < 0x1_0000_0000
  type Word64 = x: nat | x < 0x1_0000_0000_0000_0000

  /** Addition to a pair of words, the carry out of the low word going into the high one, is modulo 2^128. */
  lemma AddCarries(high: Word64, low: Word64, n: Word64, carry: nat, sum: Word64)
    requires low + n == carry * TWO_64 + sum
    ensures carry <= 1 && (high + carry) % TWO_64 * TWO_64 + sum == (high * TWO_64 + low + n) % TWO_128
  {
    if high + carry == TWO_64 {
      DivModUnique(high * TWO_64 + low + n, TWO_128, 1, sum);
    } else {
      DivModUnique(high * TWO_64 + low + n, TWO_128, 0, (high + carry) * TWO_64 + sum);
    }
  }
}
