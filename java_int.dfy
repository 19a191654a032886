/**
 * The pieces of Java's 32-bit integer semantics that the modelled code
 * depends on: two's-complement wrap-around, the unsigned bit pattern of an
 * int, and the narrowing cast from double to int.
 */
module JavaInt {

  const Modulus: int := 0x1_0000_0000

  /** A Java `int`. */
  type Int32 = x: int | -0x8000_0000 <= x < 0x8000_0000

  /** The 32 bits of a Java `int`, read as an unsigned number. */
  type Word = x: int | 0 <= x < 0x1_0000_0000

  /** The Java `int` holding the low 32 bits of `x` (what `+` and `-` produce on overflow). */
  function Wrap32(x: int): (r: Int32)
    ensures (r - x) % Modulus == 0
    ensures -0x8000_0000 <= x < 0x8000_0000 ==> r == x
  {
    var m := x % Modulus;
    if m < 0x8000_0000 then m else m - Modulus
  }

  /** The bit pattern of `x`, two's complement. */
  function Bits(x: Int32): (u: Word)
    ensures Wrap32(u) == x
    ensures x >= 0 ==> u == x
  {
    x % Modulus
  }

  /**
   * The narrowing conversion `(int) x` of a double: it truncates toward zero
   * and saturates at the ends of the int range.
   */
  function DoubleToInt(x: real): (r: Int32)
    ensures 0.0 <= x < 0x8000_0000 as real ==> 0 <= r && r as real <= x < r as real + 1.0
    ensures x >= 0x8000_0000 as real ==> r == 0x7fff_ffff
    ensures x <= -(0x8000_0000 as real) ==> r == -0x8000_0000
    ensures -(0x8000_0000 as real) < x <= 0.0 ==> r <= 0 && r as real - 1.0 < x <= r as real
  {
    if x >= 0x7fff_ffff as real then 0x7fff_ffff
    else if x <= -(0x8000_0000 as real) then -0x8000_0000
    else if x >= 0.0 then x.Floor
    else -((-x).Floor)
  }

  /** Euclidean division is determined by quotient and remainder. */
  lemma DivModUnique(x: int, d: int, q: int, m: int)
    requires d > 0 && 0 <= m < d && x == q * d + m
    ensures x / d == q && x % d == m
  {
    var q', m' := x / d, x % d;
    assert (q - q') * d == m' - m;
    if q > q' {
      MulAtLeast(q - q', d);
    } else if q < q' {
      MulAtLeast(q' - q, d);
    }
  }

  lemma MulAtLeast(k: int, d: int)
    requires k >= 1 && d > 0
    ensures k * d >= d
  {
  }
}
