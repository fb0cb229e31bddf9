/** The cursor ring: where paint places it on the surface and which of the two
    translucent stroke colours drawCursor picks so that it stays visible. */
module Cursor {
  import opened ColorMath

  /** The ring colour: rgba(255, 255, 255, 0.35) or rgba(0, 0, 0, 0.35). */
  datatype Stroke = White | Black

  /** Weighted luminance of the selected colour, as paint computes it. The
      weights add up to 1.004, so white has luminance 256.02. */
  function Luminance(c: Rgb): (l: real)
    ensures InByteRange(c) ==> 0.0 <= l <= 256.02
    ensures c.r == c.g == c.b ==> l == 1.004 * c.r as real
  {
    c.r as real * 0.3 + c.g as real * 0.59 + c.b as real * 0.114
  }

  /** The ring is white on a dark background and black otherwise; a luminance of
      exactly 128 counts as light. */
  function StrokeFor(l: real): (s: Stroke)
    ensures s == White <==> l < 128.0
  {
    if l < 128.0 then White else Black
  }

  /** On a grey background the ring turns black from grey level 128 up. */
  lemma GreyStroke(v: int)
    ensures StrokeFor(Luminance(Rgb(v, v, v))) == (if v <= 127 then White else Black)
  {
    assert Luminance(Rgb(v, v, v)) == 1.004 * v as real;
    if v <= 127 {
      assert 1.004 * v as real <= 1.004 * 127.0;
    } else {
      assert 1.004 * v as real >= 1.004 * 128.0;
    }
  }

  /** Darkening any channel never turns a white ring black. */
  lemma StrokeMonotone(c: Rgb, d: Rgb)
    requires c.r <= d.r && c.g <= d.g && c.b <= d.b
    requires StrokeFor(Luminance(d)) == White
    ensures StrokeFor(Luminance(c)) == White
  {
  }

  /** `Math.round(sel * size / 255)`: the pixel offset of a 0-255 field
      coordinate on a surface side of `size` pixels. */
  function CursorOffset(sel: real, size: nat): (p: int)
    ensures 0.0 <= sel <= 255.0 ==> 0 <= p <= size
  {
    Round(sel * size as real / 255.0)
  }

  /** The two ends of the field land on the two edges of the surface. */
  lemma CursorOffsetEdges(size: nat)
    ensures CursorOffset(0.0, size) == 0
    ensures CursorOffset(255.0, size) == size
  {
    RoundOfInt(0);
    RoundOfInt(size);
  }

  /** Moving the selection right (down) never moves the ring left (up). */
  lemma CursorOffsetMonotone(u: real, v: real, size: nat)
    requires u <= v
    ensures CursorOffset(u, size) <= CursorOffset(v, size)
  {
    assert u * size as real <= v * size as real;
    RoundMonotone(u * size as real / 255.0, v * size as real / 255.0);
  }
}
