/**
 * `mfb_color` of soft-render: a colour as four 8-bit fields b, g, r, a (in that
 * declaration order), packed into a 32-bit window pixel, converted to and from
 * float RGB channels in [0, 1].
 */
module MfbColor {
  import opened Color

  /** The value of an `mfb_color`. */
  datatype Mfb = Mfb(b: Byte, g: Byte, r: Byte, a: Byte)
  {
    /**
     * `operator uint32_t`: a << 24 | b << 16 | g << 8 | r, written as the weighted sum
     * it equals because the four bytes occupy disjoint 8-bit fields. The result fits
     * in 32 bits and each byte is read back by a shift (a division by a power of two)
     * and a mask (a remainder by 256).
     */
    function ToUint32(): (u: nat)
      ensures u < 0x1_0000_0000
      ensures u / 0x100 / 0x100 / 0x100 == a
      ensures u / 0x100 / 0x100 % 0x100 == b
      ensures u / 0x100 % 0x100 == g
      ensures u % 0x100 == r
    {
      var u := a * 0x100_0000 + b * 0x1_0000 + g * 0x100 + r;
      DivModByte(u, a * 0x1_0000 + b * 0x100 + g, r);
      DivModByte(u / 0x100, a * 0x100 + b, g);
      DivModByte(u / 0x100 / 0x100, a, b);
      u
    }

    /** `as_rgb_vec`: (r, g, b) / 255, every channel in [0, 1]. */
    function AsRgbVec(): (c: Rgb)
      ensures InUnitCube(c)
      ensures c.r * 255.0 == r as real && c.g * 255.0 == g as real && c.b * 255.0 == b as real
    {
      Rgb(ByteToChannel(r), ByteToChannel(g), ByteToChannel(b))
    }

    /**
     * The value after `set(rgb)`: b, g and r become the truncated channel * 255 and
     * alpha is kept.
     */
    function WithRgb(rgb: Rgb): (c: Mfb)
      requires Settable(rgb)
      ensures c.a == a
      ensures c.r == ToByte(rgb.r * 255.0) && c.g == ToByte(rgb.g * 255.0) && c.b == ToByte(rgb.b * 255.0)
    {
      Mfb(ToByte(rgb.b * 255.0), ToByte(rgb.g * 255.0), ToByte(rgb.r * 255.0), a)
    }
  }

  /** Division by 256 with remainder is unique. */
  lemma DivModByte(u: int, q: int, r: int)
    requires 0 <= r < 0x100 && u == 0x100 * q + r
    ensures u / 0x100 == q && u % 0x100 == r
  {
  }

  /** The inverse of the packing: the four bytes of a 32-bit pixel, lowest first. */
  function FromUint32(u: nat): Mfb
    requires u < 0x1_0000_0000
  {
    var above8 := u / 0x100;
    var above16 := above8 / 0x100;
    var above24 := above16 / 0x100;
    Mfb(above16 % 0x100, above8 % 0x100, u % 0x100, above24)
  }

  lemma UnpackPack(c: Mfb)
    ensures FromUint32(c.ToUint32()) == c
  {
  }

  /** Packing is a bijection between colours and 32-bit pixels. */
  lemma PackUnpack(u: nat)
    requires u < 0x1_0000_0000
    ensures FromUint32(u).ToUint32() == u
  {
    var above8 := u / 0x100;
    var above16 := above8 / 0x100;
    var above24 := above16 / 0x100;
    assert u == 0x100 * above8 + u % 0x100;
    assert above8 == 0x100 * above16 + above8 % 0x100;
    assert above16 == 0x100 * above24 + above16 % 0x100;
  }

  const Red := Mfb(0, 0, 0xFF, 0)
  const Green := Mfb(0, 0xFF, 0, 0)
  const Blue := Mfb(0xFF, 0, 0, 0)
  const Yello := Mfb(0, 0xFF, 0xFF, 0)

  /** The named colours have alpha 0 and pack to these pixels. */
  lemma NamedColours()
    ensures Red.a == 0 && Green.a == 0 && Blue.a == 0 && Yello.a == 0
    ensures Red.ToUint32() == 0x0000_00FF
    ensures Green.ToUint32() == 0x0000_FF00
    ensures Blue.ToUint32() == 0x00FF_0000
    ensures Yello.ToUint32() == 0x0000_FFFF
  {
  }

  /** The float-to-uint8 conversion is defined only when the truncated value fits in a byte. */
  predicate FitsByte(v: real) {
    -1.0 < v < 256.0
  }

  predicate Settable(rgb: Rgb) {
    FitsByte(rgb.r * 255.0) && FitsByte(rgb.g * 255.0) && FitsByte(rgb.b * 255.0)
  }

  /** Float to uint8: truncation toward zero. */
  function ToByte(v: real): (x: Byte)
    requires FitsByte(v)
    ensures v >= 0.0 ==> x as real <= v < x as real + 1.0
    ensures v < 1.0 ==> x == 0
  {
    if v >= 0.0 then v.Floor else 0
  }

  /** Every channel of the unit cube can be set. */
  lemma UnitCubeSettable(rgb: Rgb)
    requires InUnitCube(rgb)
    ensures Settable(rgb)
  {
  }

  /** Setting a colour's own float channels gives the colour back. */
  lemma WithOwnRgb(c: Mfb)
    ensures Settable(c.AsRgbVec()) && c.WithRgb(c.AsRgbVec()) == c
  {
    var v := c.AsRgbVec();
    assert v.r * 255.0 == c.r as real;
    assert v.g * 255.0 == c.g as real;
    assert v.b * 255.0 == c.b as real;
  }

  /** Setting a colour to its own channels scaled by k in [0, 1] darkens every channel. */
  lemma ScaledDarkens(c: Mfb, k: real)
    requires 0.0 <= k <= 1.0
    ensures Settable(ScaleRgb(c.AsRgbVec(), k))
    ensures var d := c.WithRgb(ScaleRgb(c.AsRgbVec(), k)); d.r <= c.r && d.g <= c.g && d.b <= c.b
  {
    var v := ScaleRgb(c.AsRgbVec(), k);
    ChannelDarkens(c.r, k, v.r);
    ChannelDarkens(c.g, k, v.g);
    ChannelDarkens(c.b, k, v.b);
  }

  /** A byte's channel v scaled by k in [0, 1] converts back to a byte no larger. */
  lemma ChannelDarkens(x: Byte, k: real, v: real)
    requires 0.0 <= k <= 1.0 && v == ByteToChannel(x) * k
    ensures FitsByte(v * 255.0) && ToByte(v * 255.0) <= x
  {
    var c := ByteToChannel(x);
    ChannelScale(c, k, v);
    assert c * 255.0 == x as real;
    assert 0.0 <= v * 255.0 <= x as real;
  }

  /** A channel c scaled by k in [0, 1] stays between 0 and c. */
  lemma ChannelScale(c: real, k: real, p: real)
    requires 0.0 <= c <= 1.0 && 0.0 <= k <= 1.0 && p == c * k
    ensures 0.0 <= p * 255.0 <= c * 255.0
  {
    MulBelow(k, c);
    assert p == k * c;
    assert c * 255.0 - p * 255.0 == (c - p) * 255.0;
  }

  /**
   * The defaulted comparison: fields compared in declaration order b, g, r, a;
   * negative, zero or positive.
   */
  function Compare(x: Mfb, y: Mfb): (o: int)
    ensures -1 <= o <= 1
  {
    if x.b != y.b then (if x.b < y.b then -1 else 1)
    else if x.g != y.g then (if x.g < y.g then -1 else 1)
    else if x.r != y.r then (if x.r < y.r then -1 else 1)
    else if x.a != y.a then (if x.a < y.a then -1 else 1)
    else 0
  }

  /** The comparison is zero exactly on equal colours and flips sign when its arguments swap. */
  lemma CompareIsOrder(x: Mfb, y: Mfb)
    ensures Compare(x, y) == 0 <==> x == y
    ensures Compare(y, x) == -Compare(x, y)
  {
  }

  lemma CompareTransitive(x: Mfb, y: Mfb, z: Mfb)
    requires Compare(x, y) < 0 && Compare(y, z) < 0
    ensures Compare(x, z) < 0
  {
  }

  /** A mutable `mfb_color` object, updated in place by `set`. */
  class MfbCell {
    var b: Byte
    var g: Byte
    var r: Byte
    var a: Byte

    constructor (c: Mfb)
      ensures Value() == c
    {
      b, g, r, a := c.b, c.g, c.r, c.a;
    }

    function Value(): Mfb
      reads this
    {
      Mfb(b, g, r, a)
    }

    /**
     * `set(rgb)`: overwrites b, g and r with the truncated channel * 255 values, keeps
     * alpha, and returns the object itself.
     */
    method Set(rgb: Rgb) returns (self: MfbCell)
      requires Settable(rgb)
      modifies this
      ensures self == this
      ensures b == ToByte(rgb.b * 255.0) && g == ToByte(rgb.g * 255.0) && r == ToByte(rgb.r * 255.0)
      ensures a == old(a)
      ensures Value() == old(Value()).WithRgb(rgb)
    {
      var scaled := ScaleRgb(rgb, 255.0);
      b := ToByte(scaled.b);
      g := ToByte(scaled.g);
      r := ToByte(scaled.r);
      return this;
    }
  }
}
