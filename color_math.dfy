/** The colour values the picker exchanges with its colour-space library, the
    library itself (HSB2RGBA and RGBA2HSB, supplied from outside and known only
    through its range contract) and the two pieces of JavaScript number
    arithmetic the picker relies on: the fractional part and Math.round. */
module ColorMath {

  /** An RGB colour as the library returns it; the picker reads r, g and b only. */
  datatype Rgb = Rgb(r: int, g: int, b: int)

  /** An HSB colour: hue in degrees, saturation and brightness on a 0-255 scale. */
  datatype Hsb = Hsb(h: real, s: real, b: real)

  /** The colour-space library as an injected collaborator. */
  datatype ColorSpace = ColorSpace(hsb2rgba: (real, real, real) -> Rgb, rgba2hsb: (int, int, int) -> Hsb)

  predicate IsByte(v: int) { 0 <= v <= 255 }

  predicate InByteRange(c: Rgb) { IsByte(c.r) && IsByte(c.g) && IsByte(c.b) }

  /** Hue in [0, 360), saturation and brightness in [0, 255]. */
  predicate InHsbRange(c: Hsb) { 0.0 <= c.h < 360.0 && 0.0 <= c.s <= 255.0 && 0.0 <= c.b <= 255.0 }

  /** The only facts the picker may use about the library: every RGB channel it
      produces is a byte and every HSB it produces is in range. */
  ghost predicate Lawful(cs: ColorSpace) {
    && (forall h: real, s: real, b: real :: InByteRange(cs.hsb2rgba(h, s, b)))
    && (forall r: int, g: int, b: int :: InHsbRange(cs.rgba2hsb(r, g, b)))
  }

  /** `v - Math.floor(v)`: what is left of v after removing its integer part. */
  function Frac(v: real): (f: real)
    ensures 0.0 <= f < 1.0
    ensures (v - f).Floor as real == v - f
  {
    v - v.Floor as real
  }

  /** A value already in [0, 1) is its own fractional part. */
  lemma FracOfUnit(v: real)
    requires 0.0 <= v < 1.0
    ensures Frac(v) == v
  {
    assert v.Floor == 0;
  }

  /** Adding a whole number does not change the fractional part. */
  lemma FracShift(v: real, n: int)
    ensures Frac(v + n as real) == Frac(v)
  {
    assert (v + n as real).Floor == v.Floor + n;
  }

  /** `Math.round(v)`: the nearest integer, halves rounded up. */
  function Round(v: real): (n: int)
    ensures v - 0.5 < n as real <= v + 0.5
  {
    (v + 0.5).Floor
  }

  /** Math.round is monotone. */
  lemma RoundMonotone(u: real, v: real)
    requires u <= v
    ensures Round(u) <= Round(v)
  {
  }

  /** Math.round returns integers unchanged. */
  lemma RoundOfInt(n: int)
    ensures Round(n as real) == n
  {
  }
}
