/**
 * Fixed-width machine words as Java holds them. A Java `long` is kept as its
 * 64-bit two's complement bit pattern; a Java `byte` as its 8-bit pattern.
 */
module Words {

  /** The bit pattern of a Java `long`. */
  type Long = bv64

  /** The bit pattern of a Java `byte`. */
  type Byte = bv8

  /** Four bits: one hex digit. */
  type Nibble = bv4

  const TwoTo63: int := 0x8000_0000_0000_0000
  const TwoTo64: int := 0x1_0000_0000_0000_0000

  /** The values a Java `long` can take. */
  type JLong = x: int | -TwoTo63 <= x < TwoTo63

  /**
   * The unsigned reading of the bit pattern that Java's wrap-around `long`
   * arithmetic leaves for the integer `x`: the pattern is the same whether one
   * wraps after every `*` and `+` or once at the end.
   */
  function Wrap(x: int): (u: nat)
    ensures u < TwoTo64
    ensures exists k: int :: x == u + k * TwoTo64
  {
    var u := x % TwoTo64;
    assert x == u + (x / TwoTo64) * TwoTo64;
    u
  }
}
