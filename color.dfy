/**
 * Floating-point RGB colours (libcommon's `float_rgb`, a strong type over a
 * three-component vector) and the byte-to-channel conversion `make_float_rgb`.
 */
module Color {
  /** An 8-bit unsigned channel. */
  type Byte = x: int | 0 <= x < 256

  datatype Rgb = Rgb(r: real, g: real, b: real)

  /** The value-initialised colour, used as the default background. */
  const Black := Rgb(0.0, 0.0, 0.0)

  const Red := Rgb(1.0, 0.0, 0.0)
  const Green := Rgb(0.0, 1.0, 0.0)
  const Blue := Rgb(0.0, 0.0, 1.0)
  const Yello := Rgb(1.0, 0.984, 0.0)

  predicate InUnitCube(c: Rgb) {
    0.0 <= c.r <= 1.0 && 0.0 <= c.g <= 1.0 && 0.0 <= c.b <= 1.0
  }

  /** c * k, channel by channel. */
  function ScaleRgb(c: Rgb, k: real): Rgb {
    Rgb(c.r * k, c.g * k, c.b * k)
  }

  function AddRgb(c: Rgb, d: Rgb): Rgb {
    Rgb(c.r + d.r, c.g + d.g, c.b + d.b)
  }

  /** One byte as a channel in [0, 1]; multiplying back by 255 recovers the byte. */
  function ByteToChannel(x: Byte): (c: real)
    ensures 0.0 <= c <= 1.0
    ensures c * 255.0 == x as real
  {
    x as real / 255.0
  }

  /** Each byte becomes its own channel, divided by 255. */
  function MakeFloatRgb(r: Byte, g: Byte, b: Byte): (c: Rgb)
    ensures InUnitCube(c)
    ensures c.r * 255.0 == r as real && c.g * 255.0 == g as real && c.b * 255.0 == b as real
  {
    Rgb(ByteToChannel(r), ByteToChannel(g), ByteToChannel(b))
  }

  /** Byte 0 is channel 0.0 and byte 255 is channel 1.0. */
  lemma MakeFloatRgbExtremes()
    ensures MakeFloatRgb(0, 0, 0) == Black
    ensures MakeFloatRgb(255, 255, 255) == Rgb(1.0, 1.0, 1.0)
  {
  }

  /** A larger byte gives a larger or equal channel, in every channel. */
  lemma MakeFloatRgbMonotone(r1: Byte, g1: Byte, b1: Byte, r2: Byte, g2: Byte, b2: Byte)
    requires r1 <= r2 && g1 <= g2 && b1 <= b2
    ensures var c1, c2 := MakeFloatRgb(r1, g1, b1), MakeFloatRgb(r2, g2, b2);
            c1.r <= c2.r && c1.g <= c2.g && c1.b <= c2.b
  {
  }

  /** Channels do not mix: each output channel depends on its own byte only. */
  lemma MakeFloatRgbSeparate(r: Byte, g: Byte, b: Byte, r': Byte, g': Byte, b': Byte)
    ensures MakeFloatRgb(r, g, b).r == MakeFloatRgb(r, g', b').r
    ensures MakeFloatRgb(r, g, b).g == MakeFloatRgb(r', g, b').g
    ensures MakeFloatRgb(r, g, b).b == MakeFloatRgb(r', g', b).b
  {
  }

  /** The conversion is one-to-one: distinct byte triples give distinct colours. */
  lemma MakeFloatRgbInjective(r1: Byte, g1: Byte, b1: Byte, r2: Byte, g2: Byte, b2: Byte)
    requires MakeFloatRgb(r1, g1, b1) == MakeFloatRgb(r2, g2, b2)
    ensures r1 == r2 && g1 == g2 && b1 == b2
  {
    var c := MakeFloatRgb(r1, g1, b1);
    assert c == MakeFloatRgb(r2, g2, b2);
  }

  /**
   * red, green and blue are the byte colours (255,0,0), (0,255,0) and (0,0,255);
   * yello's green channel 0.984 lies strictly between bytes 250 and 251, so yello
   * is not the image of any byte triple.
   */
  lemma PredefinedColours()
    ensures Red == MakeFloatRgb(255, 0, 0)
    ensures Green == MakeFloatRgb(0, 255, 0)
    ensures Blue == MakeFloatRgb(0, 0, 255)
    ensures ByteToChannel(250) < Yello.g < ByteToChannel(251)
    ensures forall r: Byte, g: Byte, b: Byte :: MakeFloatRgb(r, g, b) != Yello
  {
  }

  /** Scaling a colour of the unit cube by a factor in [0, 1] stays in the cube. */
  lemma ScaleInUnitCube(c: Rgb, k: real)
    requires InUnitCube(c) && 0.0 <= k <= 1.0
    ensures InUnitCube(ScaleRgb(c, k))
  {
    MulBelow(c.r, k);
    MulBelow(c.g, k);
    MulBelow(c.b, k);
  }

  /** A convex blend `c*(1-k) + d*k` of two colours of the unit cube stays in the cube. */
  lemma BlendInUnitCube(c: Rgb, d: Rgb, k: real)
    requires InUnitCube(c) && InUnitCube(d) && 0.0 <= k <= 1.0
    ensures InUnitCube(AddRgb(ScaleRgb(c, 1.0 - k), ScaleRgb(d, k)))
  {
    Blend(c.r, d.r, k);
    Blend(c.g, d.g, k);
    Blend(c.b, d.b, k);
  }

  lemma Blend(a: real, b: real, k: real)
    requires 0.0 <= a <= 1.0 && 0.0 <= b <= 1.0 && 0.0 <= k <= 1.0
    ensures 0.0 <= a * (1.0 - k) + b * k <= 1.0
  {
    var z := 1.0 - k;
    var p := a * z;
    MulBelow(a, z);
    assert p <= z;
    var q := b * k;
    MulBelow(b, k);
    assert q <= k;
  }

  lemma MulBelow(x: real, y: real)
    requires 0.0 <= x <= 1.0 && 0.0 <= y
    ensures 0.0 <= x * y <= y
  {
    var z := 1.0 - x;
    assert y - x * y == z * y;
    if z > 0.0 && y > 0.0 {
      assert z * y > 0.0;
    }
    if x > 0.0 && y > 0.0 {
      assert x * y > 0.0;
    }
  }
}
