/**
 * Packed 32-bit colours as the texture code stores them: alpha in bits
 * 24-31, blue in 16-23, green in 8-15 and red in 0-7. A pixel is held as the
 * unsigned reading of its 32 bits, so the shifts and masks of the extractors
 * are divisions and remainders by powers of two.
 */
module Pixels {
  import opened JavaInt

  /** A colour channel value. */
  type Channel = x: int | 0 <= x < 256

  /** Bits 24-31. A signed right shift followed by the mask keeps exactly these bits. */
  function GetA(color: Word): (a: int)
    ensures 0 <= a <= 255
  {
    (color / 0x100_0000) % 0x100
  }

  /** Bits 0-7. */
  function GetR(color: Word): (r: int)
    ensures 0 <= r <= 255
  {
    color % 0x100
  }

  /** Bits 8-15. */
  function GetG(color: Word): (g: int)
    ensures 0 <= g <= 255
  {
    (color / 0x100) % 0x100
  }

  /** Bits 16-23. */
  function GetB(color: Word): (b: int)
    ensures 0 <= b <= 255
  {
    (color / 0x1_0000) % 0x100
  }

  /**
   * `(a << 24) | (b << 16) | (g << 8) | r`. Every argument is a channel value,
   * so the four shifted fields occupy disjoint bits and the OR is their sum.
   */
  function FromArgb(a: Channel, r: Channel, g: Channel, b: Channel): (color: Word)
    ensures color / 0x100_0000 == a
  {
    a * 0x100_0000 + b * 0x1_0000 + g * 0x100 + r
  }

  /**
   * The overload taking doubles: each colour component is narrowed with
   * `(int)` before packing. The components must lie in 0..255.
   */
  function FromArgbReal(a: Channel, r: real, g: real, b: real): (color: Word)
    requires 0.0 <= r < 256.0 && 0.0 <= g < 256.0 && 0.0 <= b < 256.0
    ensures GetA(color) == a
    ensures GetR(color) as real <= r < GetR(color) as real + 1.0
    ensures GetG(color) as real <= g < GetG(color) as real + 1.0
    ensures GetB(color) as real <= b < GetB(color) as real + 1.0
  {
    PackUnpack(a, DoubleToInt(r), DoubleToInt(g), DoubleToInt(b));
    FromArgb(a, DoubleToInt(r), DoubleToInt(g), DoubleToInt(b))
  }

  /** Packing four channels and unpacking them gives the channels back. */
  lemma PackUnpack(a: Channel, r: Channel, g: Channel, b: Channel)
    ensures GetA(FromArgb(a, r, g, b)) == a
    ensures GetR(FromArgb(a, r, g, b)) == r
    ensures GetG(FromArgb(a, r, g, b)) == g
    ensures GetB(FromArgb(a, r, g, b)) == b
  {
    var color := FromArgb(a, r, g, b);
    DivModUnique(color, 0x100, a * 0x1_0000 + b * 0x100 + g, r);
    DivModUnique(a * 0x1_0000 + b * 0x100 + g, 0x100, a * 0x100 + b, g);
    DivModUnique(color, 0x1_0000, a * 0x100 + b, g * 0x100 + r);
    DivModUnique(a * 0x100 + b, 0x100, a, b);
    DivModUnique(color, 0x100_0000, a, b * 0x1_0000 + g * 0x100 + r);
    DivModUnique(a, 0x100, 0, a);
  }

  /** Unpacking a colour and packing its channels gives the colour back. */
  lemma UnpackPack(color: Word)
    ensures FromArgb(GetA(color), GetR(color), GetG(color), GetB(color)) == color
  {
    var r, q0 := color % 0x100, color / 0x100;
    var g, q1 := q0 % 0x100, q0 / 0x100;
    var b, a := q1 % 0x100, q1 / 0x100;
    DivModUnique(color, 0x1_0000, q1, g * 0x100 + r);
    DivModUnique(color, 0x100_0000, a, b * 0x1_0000 + g * 0x100 + r);
    DivModUnique(a, 0x100, 0, a);
  }
}
