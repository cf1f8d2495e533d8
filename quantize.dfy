/** The step shared by both `write_color` variants: clamp a channel to
    [0, 0.999], scale by 256 and cast to int. */
module Quantize {

  /** The three integers `write_color` prints for one pixel. */
  datatype Pixel = Pixel(r: int, g: int, b: int)

  /** `clamp` / `clip` (from the utility header, not part of this model):
      bound x to [min, max]. */
  function Clamp(x: real, min: real, max: real): real {
    if x < min then min else if x > max then max else x
  }

  /** The C cast `(int)` of a double: truncation toward zero. */
  function Truncate(x: real): int {
    if x >= 0.0 then x.Floor else -((-x).Floor)
  }

  /** `(int) (256 * clamp(v, 0.0, 0.999))`: a byte value whatever the channel. */
  function ToByte(v: real): (b: int)
    ensures 0 <= b <= 255
  {
    Truncate(256.0 * Clamp(v, 0.0, 0.999))
  }

  /** The emitted integer is the number of whole 1/256 steps in the clamped
      channel: 0 at or below 0, and 255 at or above 0.999. */
  lemma ToByteRange(v: real)
    ensures ToByte(v) as real <= 256.0 * Clamp(v, 0.0, 0.999) < ToByte(v) as real + 1.0
    ensures v <= 0.0 ==> ToByte(v) == 0
    ensures v >= 0.999 ==> ToByte(v) == 255
  {
  }

  /** A larger channel never gives a smaller byte. */
  lemma ToByteMonotone(v: real, w: real)
    requires v <= w
    ensures ToByte(v) <= ToByte(w)
  {
    ToByteRange(v);
    ToByteRange(w);
  }
}
