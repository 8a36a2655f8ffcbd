/**
 * The ARGB colour classifier `is_blue` of the ROI extractor scripts.
 *
 * Annotation colours are 32-bit ARGB values that may be negative. The
 * scripts unpack them with `(c >> k) & 0xff` on Python's unbounded integers.
 * For a positive power of two, `c >> k` is floor division and `& 0xff` is the
 * non-negative remainder modulo 256; Dafny's Euclidean `/` and `%` by a
 * positive constant compute exactly these, also for negative `c`.
 */
module Colour {

  /** A channel value. */
  type Byte = b: int | 0 <= b < 0x100

  /** `v & 0xff` */
  function LowByte(v: int): (b: Byte)
    ensures (v - b) % 0x100 == 0
  {
    v % 0x100
  }

  /** `c & 0xff` */
  function BlueOf(c: int): Byte { LowByte(c) }

  /** `(c >> 8) & 0xff` */
  function GreenOf(c: int): Byte { LowByte(c / 0x100) }

  /** `(c >> 16) & 0xff` */
  function RedOf(c: int): Byte { LowByte(c / 0x1_0000) }

  /** `(c >> 24) & 0xff`; computed by the scripts but never used. */
  function AlphaOf(c: int): Byte { LowByte(c / 0x100_0000) }

  /** `is_blue`: blue strictly above red, green and 128. */
  predicate IsBlue(c: int) {
    BlueOf(c) > RedOf(c) && BlueOf(c) > GreenOf(c) && BlueOf(c) > 128
  }

  /**
   * The colour whose channels are `r`, `g`, `b` and whose bits from 24 up are
   * `hi` (`hi` in -128..127 for a signed 32-bit colour, 0..255 for an unsigned
   * one, anything for Python's unbounded integers).
   */
  function Pack(hi: int, r: Byte, g: Byte, b: Byte): int {
    hi * 0x100_0000 + r * 0x1_0000 + g * 0x100 + b
  }

  /** A product of a positive number and a positive factor is at least the factor. */
  lemma MulAtLeast(d: int, m: int)
    requires 1 <= d && 0 < m
    ensures d * m >= m
  {
    assert d * m == (d - 1) * m + m;
  }

  /** Euclidean division is determined by any quotient/remainder pair. */
  lemma DivModUnique(a: int, m: int, q: int, r: int)
    requires 0 < m && a == q * m + r && 0 <= r < m
    ensures a / m == q && a % m == r
  {
    var q0, r0 := a / m, a % m;
    assert a == q0 * m + r0;
    assert (q - q0) * m == r0 - r;
    if q > q0 {
      MulAtLeast(q - q0, m);
    } else if q < q0 {
      MulAtLeast(q0 - q, m);
    }
  }

  /** Unpacking a packed colour gives back its channels. */
  lemma UnpackPack(hi: int, r: Byte, g: Byte, b: Byte)
    ensures BlueOf(Pack(hi, r, g, b)) == b
    ensures GreenOf(Pack(hi, r, g, b)) == g
    ensures RedOf(Pack(hi, r, g, b)) == r
    ensures AlphaOf(Pack(hi, r, g, b)) == hi % 0x100
  {
    var c := Pack(hi, r, g, b);
    DivModUnique(c, 0x100, hi * 0x1_0000 + r * 0x100 + g, b);
    DivModUnique(c / 0x100, 0x100, hi * 0x100 + r, g);
    DivModUnique(c, 0x1_0000, hi * 0x100 + r, g * 0x100 + b);
    DivModUnique(c / 0x1_0000, 0x100, hi, r);
    DivModUnique(c, 0x100_0000, hi, r * 0x1_0000 + g * 0x100 + b);
  }

  /** Every colour is the packing of its unpacked channels. */
  lemma PackUnpack(c: int)
    ensures c == Pack(c / 0x100_0000, RedOf(c), GreenOf(c), BlueOf(c))
  {
    var b, q1 := c % 0x100, c / 0x100;
    var g, q2 := q1 % 0x100, q1 / 0x100;
    var r, q3 := q2 % 0x100, q2 / 0x100;
    assert c == q2 * 0x1_0000 + (g * 0x100 + b);
    DivModUnique(c, 0x1_0000, q2, g * 0x100 + b);
    assert c == q3 * 0x100_0000 + (r * 0x1_0000 + g * 0x100 + b);
    DivModUnique(c, 0x100_0000, q3, r * 0x1_0000 + g * 0x100 + b);
  }

  /** `is_blue` in terms of the channels a colour is made of. */
  lemma IsBlueOfPack(hi: int, r: Byte, g: Byte, b: Byte)
    ensures IsBlue(Pack(hi, r, g, b)) <==> b > r && b > g && b > 128
  {
    UnpackPack(hi, r, g, b);
  }

  /** The boundary: a blue channel of 128 is never blue, 129 is when it leads. */
  lemma IsBlueBoundary(hi: int, r: Byte, g: Byte)
    ensures !IsBlue(Pack(hi, r, g, 128))
    ensures r < 129 && g < 129 ==> IsBlue(Pack(hi, r, g, 129))
  {
    IsBlueOfPack(hi, r, g, 128);
    IsBlueOfPack(hi, r, g, 129);
  }

  /** The alpha byte, and every bit above it, does not affect `is_blue`. */
  lemma IsBlueIgnoresAlpha(c: int, k: int)
    ensures IsBlue(c + k * 0x100_0000) == IsBlue(c)
  {
    PackUnpack(c);
    var hi := c / 0x100_0000;
    assert c + k * 0x100_0000 == Pack(hi + k, RedOf(c), GreenOf(c), BlueOf(c));
    UnpackPack(hi, RedOf(c), GreenOf(c), BlueOf(c));
    UnpackPack(hi + k, RedOf(c), GreenOf(c), BlueOf(c));
  }

  /** A colour written as a signed 32-bit value classifies like its unsigned reading. */
  lemma IsBlueSignedAsUnsigned(c: int)
    ensures IsBlue(c) == IsBlue(c % 0x1_0000_0000)
  {
    var k := c / 0x1_0000_0000;
    assert c % 0x1_0000_0000 == c + (-k * 0x100) * 0x100_0000;
    IsBlueIgnoresAlpha(c, -k * 0x100);
  }
}
