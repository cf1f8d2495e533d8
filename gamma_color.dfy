/** src/color.c: the `Color` constructor, and `write_color` that divides by
    the sample count, gamma-corrects with a square root and quantises. */
module GammaColor {
  import opened Vectors
  import opened Primitives
  import opened Quantize
  import LinearColor

  /** `Color(r, g, b)` */
  function Color(r: real, g: real, b: real): Vec3 {
    Vec3(r, g, b)
  }

  /** Every colour is the `Color` of its own components, and `Color` keeps them. */
  lemma ColorRoundTrip(c: Vec3, r: real, g: real, b: real)
    ensures Color(c.x, c.y, c.z) == c
    ensures Color(r, g, b).x == r && Color(r, g, b).y == g && Color(r, g, b).z == b
  {
  }

  /** One channel: `(int) (256 * clip(sqrt(channel / samples), 0.0, 0.999))`. */
  function GammaByte(sqrt: real -> real, channel: real, samplesPerPixel: int): (b: int)
    requires samplesPerPixel != 0
    ensures 0 <= b <= 255
  {
    ToByte(sqrt(channel / samplesPerPixel as real))
  }

  /** The three integers printed for an accumulated pixel colour. */
  function WriteColor(sqrt: real -> real, pixelColor: Vec3, samplesPerPixel: int): (out: Pixel)
    requires samplesPerPixel != 0
    ensures 0 <= out.r <= 255 && 0 <= out.g <= 255 && 0 <= out.b <= 255
  {
    Pixel(GammaByte(sqrt, pixelColor.x, samplesPerPixel),
          GammaByte(sqrt, pixelColor.y, samplesPerPixel),
          GammaByte(sqrt, pixelColor.z, samplesPerPixel))
  }

  /** A zero channel gives 0. */
  lemma GammaByteOfZero(sqrt: real -> real, samplesPerPixel: int)
    requires IsSqrt(sqrt) && samplesPerPixel != 0
    ensures GammaByte(sqrt, 0.0, samplesPerPixel) == 0
  {
    var s := sqrt(0.0 / samplesPerPixel as real);
    assert 0.0 / samplesPerPixel as real == 0.0;
    assert Times(s, s) == 0.0;
    ZeroProduct(s, s);
    ToByteRange(s);
  }

  /** For non-negative channels a brighter channel never gives a smaller byte. */
  lemma GammaByteMonotone(sqrt: real -> real, x: real, y: real, samplesPerPixel: int)
    requires IsSqrt(sqrt) && samplesPerPixel > 0 && 0.0 <= x <= y
    ensures GammaByte(sqrt, x, samplesPerPixel) <= GammaByte(sqrt, y, samplesPerPixel)
  {
    var n := samplesPerPixel as real;
    LinearColor.MeanMonotone(0.0, x, n);
    LinearColor.MeanMonotone(x, y, n);
    var sx := sqrt(x / n);
    var sy := sqrt(y / n);
    assert Times(sx, sx) <= Times(sy, sy);
    SquareBound(sx, sy);
    ToByteMonotone(sx, sy);
  }

  /** The square root brightens every mean in [0, 1], so for non-negative
      channels this variant never prints a smaller value than the one without
      gamma correction in color.c. */
  lemma GammaNeverDarker(sqrt: real -> real, pixelColor: Vec3, samplesPerPixel: int)
    requires IsSqrt(sqrt) && samplesPerPixel > 0
    requires 0.0 <= pixelColor.x && 0.0 <= pixelColor.y && 0.0 <= pixelColor.z
    ensures var gamma := WriteColor(sqrt, pixelColor, samplesPerPixel);
            var linear := LinearColor.WriteColor(pixelColor, samplesPerPixel);
            linear.r <= gamma.r && linear.g <= gamma.g && linear.b <= gamma.b
  {
    LinearColor.WriteColorIsLinear(pixelColor, samplesPerPixel);
    var n := samplesPerPixel as real;
    SqrtBrightens(sqrt, pixelColor.x / n, n, pixelColor.x);
    SqrtBrightens(sqrt, pixelColor.y / n, n, pixelColor.y);
    SqrtBrightens(sqrt, pixelColor.z / n, n, pixelColor.z);
  }

  /** ToByte(v) <= ToByte(sqrt(v)) for v >= 0: below 1 the root is larger,
      at 1 and above both bytes are 255. */
  lemma SqrtBrightens(sqrt: real -> real, v: real, n: real, channel: real)
    requires IsSqrt(sqrt) && n > 0.0 && 0.0 <= channel && v == channel / n
    ensures ToByte(v) <= ToByte(sqrt(v))
  {
    LinearColor.MeanMonotone(0.0, channel, n);
    var s := sqrt(v);
    if v < 1.0 {
      if 0.0 < v {
        PositiveProduct(v, 1.0 - v);
        assert Times(v, 1.0 - v) == v - Times(v, v);
      }
      if s < v {
        SquareIncreasing(v, s);
      }
      ToByteMonotone(v, s);
    } else {
      if s < 1.0 {
        SquareIncreasing(1.0, s);
      }
      ToByteRange(v);
      ToByteRange(s);
    }
  }
}
