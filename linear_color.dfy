/** `write_color` in color.c: scale each channel by 1/samples and quantise,
    with no gamma correction (its square roots are commented out). */
module LinearColor {
  import opened Vectors
  import opened Quantize

  /** One channel: `(int) (256 * clamp(channel * scale, 0.0, 0.999))` with
      scale = 1.0 / samples. */
  function LinearByte(channel: real, samplesPerPixel: int): (b: int)
    requires samplesPerPixel != 0
    ensures 0 <= b <= 255
  {
    var scale := 1.0 / samplesPerPixel as real;
    ToByte(channel * scale)
  }

  /** The three integers printed for an accumulated pixel colour. */
  function WriteColor(pixelColor: Vec3, samplesPerPixel: int): (out: Pixel)
    requires samplesPerPixel != 0
    ensures 0 <= out.r <= 255 && 0 <= out.g <= 255 && 0 <= out.b <= 255
  {
    Pixel(LinearByte(pixelColor.x, samplesPerPixel),
          LinearByte(pixelColor.y, samplesPerPixel),
          LinearByte(pixelColor.z, samplesPerPixel))
  }

  /** Each output is the quantised mean channel / samples itself, not its
      square root, and depends on its own channel only. */
  lemma WriteColorIsLinear(pixelColor: Vec3, samplesPerPixel: int)
    requires samplesPerPixel > 0
    ensures var out := WriteColor(pixelColor, samplesPerPixel);
            var n := samplesPerPixel as real;
            && out.r == ToByte(pixelColor.x / n)
            && out.g == ToByte(pixelColor.y / n)
            && out.b == ToByte(pixelColor.z / n)
  {
    LinearByteOfMean(pixelColor.x, samplesPerPixel);
    LinearByteOfMean(pixelColor.y, samplesPerPixel);
    LinearByteOfMean(pixelColor.z, samplesPerPixel);
  }

  /** Multiplying by scale = 1/samples is dividing by samples. */
  lemma LinearByteOfMean(channel: real, samplesPerPixel: int)
    requires samplesPerPixel > 0
    ensures LinearByte(channel, samplesPerPixel) == ToByte(channel / samplesPerPixel as real)
  {
    var n := samplesPerPixel as real;
    assert LinearByte(channel, samplesPerPixel) == ToByte(channel * (1.0 / n));
    ToByteOfEqual(channel * (1.0 / n), channel / n);
  }

  /** Solver aid, modelling nothing: equal channels give equal bytes, stated
      on two names so that the solver does not have to match the two
      arithmetic terms itself. */
  lemma ToByteOfEqual(v: real, w: real)
    requires v == w
    ensures ToByte(v) == ToByte(w)
  {
  }

  /** A brighter channel never gives a smaller output. */
  lemma WriteColorMonotone(p: Vec3, q: Vec3, samplesPerPixel: int)
    requires samplesPerPixel > 0
    requires p.x <= q.x && p.y <= q.y && p.z <= q.z
    ensures var a := WriteColor(p, samplesPerPixel);
            var b := WriteColor(q, samplesPerPixel);
            a.r <= b.r && a.g <= b.g && a.b <= b.b
  {
    WriteColorIsLinear(p, samplesPerPixel);
    WriteColorIsLinear(q, samplesPerPixel);
    var n := samplesPerPixel as real;
    MeanMonotone(p.x, q.x, n);
    MeanMonotone(p.y, q.y, n);
    MeanMonotone(p.z, q.z, n);
    ToByteMonotone(p.x / n, q.x / n);
    ToByteMonotone(p.y / n, q.y / n);
    ToByteMonotone(p.z / n, q.z / n);
  }

  lemma MeanMonotone(x: real, y: real, n: real)
    requires x <= y && n > 0.0
    ensures x / n <= y / n
  {
    var inv := 1.0 / n;
    assert inv * n == 1.0;
    assert y / n - x / n == Times(y - x, inv);
    if x < y {
      PositiveProduct(y - x, inv);
    }
  }
}
