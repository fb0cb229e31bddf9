/** What the two field images contain. A buffer is the flat RGBA byte array of
    an ImageData: row-major, top-left origin, four entries per pixel.

    The colour map is the saturation/brightness plane at a fixed hue:
    saturation grows to the right, brightness falls downwards. The hue map is
    the hue/brightness plane at full saturation: it is scanned from the last
    row value upwards, so the top output row carries the largest hue and the
    bottom row hue 0, and brightness falls to the right. */
module FieldRenderer {
  import opened ColorMath

  /** Entry k (0 = red, 1 = green, 2 = blue, 3 = alpha) of an opaque pixel. */
  function Channel(c: Rgb, k: nat): int
    requires k < 4
  {
    if k == 0 then c.r else if k == 1 then c.g else if k == 2 then c.b else 255
  }

  /** The colour the colour map gives column x, row y, for depth `depth`. */
  function ColorMapPixel(cs: ColorSpace, depth: real, w: nat, h: nat, x: nat, y: nat): Rgb
    requires w > 0 && h > 0
  {
    var hue := Frac(depth) * 360.0;
    var saturation := x as real / w as real;
    var brightness := 1.0 - y as real / h as real;
    cs.hsb2rgba(hue, saturation * 255.0, brightness * 255.0)
  }

  /** The colour the hue map gives column x on the scan row whose loop value is y. */
  function HueMapPixel(cs: ColorSpace, w: nat, h: nat, x: nat, y: nat): Rgb
    requires w > 0 && h > 0
  {
    var hue := Frac(y as real / h as real) * 360.0;
    var brightness := 1.0 - x as real / w as real;
    cs.hsb2rgba(hue, 1.0 * 255.0, brightness * 255.0)
  }

  /** Entry i of the colour map buffer. */
  function ColorMapEntry(cs: ColorSpace, depth: real, w: nat, h: nat, i: nat): int
    requires i < 4 * w * h
  {
    Channel(ColorMapPixel(cs, depth, w, h, (i / 4) % w, (i / 4) / w), i % 4)
  }

  /** Entry i of the hue map buffer: output row r holds scan value h - 1 - r. */
  function HueMapEntry(cs: ColorSpace, w: nat, h: nat, i: nat): int
    requires i < 4 * w * h
  {
    PixelCount(w, h, i);
    Channel(HueMapPixel(cs, w, h, (i / 4) % w, h - 1 - (i / 4) / w), i % 4)
  }

  function ColorMapBuffer(cs: ColorSpace, depth: real, w: nat, h: nat): (buf: seq<int>)
    ensures |buf| == 4 * w * h
  {
    seq(4 * w * h, i requires 0 <= i < 4 * w * h => ColorMapEntry(cs, depth, w, h, i))
  }

  function HueMapBuffer(cs: ColorSpace, w: nat, h: nat): (buf: seq<int>)
    ensures |buf| == 4 * w * h
  {
    seq(4 * w * h, i requires 0 <= i < 4 * w * h => HueMapEntry(cs, w, h, i))
  }

  /** The field image of a picker: the hue map in hue-bar mode, otherwise the
      colour map for the picker's depth. */
  function FieldBuffer(cs: ColorSpace, hueBar: bool, depth: real, w: nat, h: nat): (buf: seq<int>)
    ensures |buf| == 4 * w * h
  {
    if hueBar then HueMapBuffer(cs, w, h) else ColorMapBuffer(cs, depth, w, h)
  }

  // Index arithmetic

  /** A positive multiple of a positive divisor is at least the divisor. */
  lemma MulAtLeast(t: int, d: int)
    requires t >= 1 && d > 0
    ensures t * d >= d
  {
    assert t * d == (t - 1) * d + d;
  }

  /** Division is determined by quotient and remainder. */
  lemma DivModUnique(n: int, d: int, q: int, r: int)
    requires d > 0 && 0 <= r < d && n == q * d + r
    ensures n / d == q && n % d == r
  {
    var q0, r0 := n / d, n % d;
    assert q0 * d + r0 == q * d + r;
    if q0 > q {
      MulAtLeast(q0 - q, d);
    } else if q0 < q {
      MulAtLeast(q - q0, d);
    }
  }

  /** Entry 4 * (y * w + x) + k is channel k of the pixel at column x, row y. */
  lemma PixelIndex(w: nat, x: nat, y: nat, k: nat)
    requires x < w && k < 4
    ensures (4 * (y * w + x) + k) % 4 == k
    ensures (4 * (y * w + x) + k) / 4 == y * w + x
    ensures (y * w + x) % w == x && (y * w + x) / w == y
  {
    DivModUnique(4 * (y * w + x) + k, 4, y * w + x, k);
    DivModUnique(y * w + x, w, y, x);
  }

  /** Every entry of a w-by-h buffer lies in a pixel of the surface. */
  lemma PixelCount(w: nat, h: nat, i: nat)
    requires i < 4 * w * h
    ensures w > 0 && h > 0
    ensures (i / 4) % w < w && (i / 4) / w < h
  {
    var p := i / 4;
    assert w > 0 && h > 0;
    assert p < w * h;
    var q := p / w;
    assert q * w + p % w == p;
    if q >= h {
      MulAtLeast(q - h + 1, w);
    }
  }

  /** The pixel at column x, row y fits in a w-by-h buffer. */
  lemma PixelInBuffer(w: nat, h: nat, x: nat, y: nat)
    requires x < w && y < h
    ensures 4 * (y * w + x) + 4 <= 4 * w * h
  {
    assert y * w + x < (y + 1) * w;
    MulAtLeast(h - y, w);
    assert h * w == (h - y) * w + y * w;
  }

  /** The four entries of pixel (x, y) of the colour map. */
  lemma ColorMapEntries(cs: ColorSpace, depth: real, w: nat, h: nat, x: nat, y: nat)
    requires x < w && y < h
    ensures 4 * (y * w + x) + 4 <= 4 * w * h
    ensures var i, c := 4 * (y * w + x), ColorMapPixel(cs, depth, w, h, x, y);
            && ColorMapEntry(cs, depth, w, h, i) == c.r
            && ColorMapEntry(cs, depth, w, h, i + 1) == c.g
            && ColorMapEntry(cs, depth, w, h, i + 2) == c.b
            && ColorMapEntry(cs, depth, w, h, i + 3) == 255
  {
    PixelInBuffer(w, h, x, y);
    PixelIndex(w, x, y, 0);
    PixelIndex(w, x, y, 1);
    PixelIndex(w, x, y, 2);
    PixelIndex(w, x, y, 3);
  }

  /** The four entries of the hue map pixel at column x, output row r. */
  lemma HueMapEntries(cs: ColorSpace, w: nat, h: nat, x: nat, r: nat)
    requires x < w && r < h
    ensures 4 * (r * w + x) + 4 <= 4 * w * h
    ensures var i, c := 4 * (r * w + x), HueMapPixel(cs, w, h, x, h - 1 - r);
            && HueMapEntry(cs, w, h, i) == c.r
            && HueMapEntry(cs, w, h, i + 1) == c.g
            && HueMapEntry(cs, w, h, i + 2) == c.b
            && HueMapEntry(cs, w, h, i + 3) == 255
  {
    PixelInBuffer(w, h, x, r);
    PixelIndex(w, x, r, 0);
    PixelIndex(w, x, r, 1);
    PixelIndex(w, x, r, 2);
    PixelIndex(w, x, r, 3);
  }

  // What the buffers hold

  /** Colour map, pixel (x, y): the library colour for hue frac(depth) * 360,
      saturation x / w * 255 and brightness (1 - y / h) * 255, fully opaque. */
  lemma ColorMapPixelAt(cs: ColorSpace, depth: real, w: nat, h: nat, x: nat, y: nat)
    requires x < w && y < h
    ensures var buf, i, c := ColorMapBuffer(cs, depth, w, h), 4 * (y * w + x),
              cs.hsb2rgba(Frac(depth) * 360.0, x as real / w as real * 255.0, (1.0 - y as real / h as real) * 255.0);
            i + 4 <= |buf| && buf[i..i + 4] == [c.r, c.g, c.b, 255]
  {
    ColorMapEntries(cs, depth, w, h, x, y);
  }

  /** A prefix that agrees, followed by a block that agrees, is a longer
      prefix that agrees. */
  lemma PrefixExtends(a: seq<int>, s: seq<int>, i: nat, j: nat)
    requires i <= j <= |a| && j <= |s|
    requires a[..i] == s[..i] && a[i..j] == s[i..j]
    ensures a[..j] == s[..j]
  {
    assert a[..j] == a[..i] + a[i..j];
    assert s[..j] == s[..i] + s[i..j];
  }

  /** Writing pixel (x, y) of the colour map after the pixels before it extends
      the part of the buffer already written by one pixel. */
  lemma ColorMapStep(cs: ColorSpace, depth: real, w: nat, h: nat, x: nat, y: nat, a: seq<int>)
    requires x < w && y < h
    requires var buf, i, c := ColorMapBuffer(cs, depth, w, h), 4 * (y * w + x),
               cs.hsb2rgba(Frac(depth) * 360.0, x as real / w as real * 255.0, (1.0 - y as real / h as real) * 255.0);
             && i + 4 <= |buf| && i + 4 <= |a| && a[..i] == buf[..i] && a[i..i + 4] == [c.r, c.g, c.b, 255]
    ensures var buf, i := ColorMapBuffer(cs, depth, w, h), 4 * (y * w + x);
            a[..i + 4] == buf[..i + 4]
  {
    var buf, i := ColorMapBuffer(cs, depth, w, h), 4 * (y * w + x);
    var c := cs.hsb2rgba(Frac(depth) * 360.0, x as real / w as real * 255.0, (1.0 - y as real / h as real) * 255.0);
    ColorMapPixelAt(cs, depth, w, h, x, y);
    assert buf[i..i + 4] == [c.r, c.g, c.b, 255];
    PrefixExtends(a, buf, i, i + 4);
  }

  /** Hue map, output row r counted from the top, column x: hue (h - 1 - r) / h
      * 360, saturation 255, brightness (1 - x / w) * 255, fully opaque. */
  lemma HueMapPixelAt(cs: ColorSpace, w: nat, h: nat, x: nat, r: nat)
    requires x < w && r < h
    ensures var buf, i, c := HueMapBuffer(cs, w, h), 4 * (r * w + x),
              cs.hsb2rgba((h - 1 - r) as real / h as real * 360.0, 255.0, (1.0 - x as real / w as real) * 255.0);
            i + 4 <= |buf| && buf[i..i + 4] == [c.r, c.g, c.b, 255]
  {
    HueMapEntries(cs, w, h, x, r);
    HueOfRow(cs, w, h, x, r);
  }

  /** The scan value of output row r is a fraction of a turn already. */
  lemma HueOfRow(cs: ColorSpace, w: nat, h: nat, x: nat, r: nat)
    requires x < w && r < h
    ensures HueMapPixel(cs, w, h, x, h - 1 - r) == cs.hsb2rgba((h - 1 - r) as real / h as real * 360.0, 255.0, (1.0 - x as real / w as real) * 255.0)
  {
    var v := (h - 1 - r) as real / h as real;
    assert v * h as real == (h - 1 - r) as real;
    FracOfUnit(v);
  }

  /** The bottom row of the hue map has hue 0 and the top row the largest hue,
      (h - 1) / h of a turn. */
  lemma HueMapEdgeRows(cs: ColorSpace, w: nat, h: nat, x: nat)
    requires x < w && 0 < h
    ensures var buf, c0, cTop := HueMapBuffer(cs, w, h),
              cs.hsb2rgba(0.0, 255.0, (1.0 - x as real / w as real) * 255.0),
              cs.hsb2rgba((h - 1) as real / h as real * 360.0, 255.0, (1.0 - x as real / w as real) * 255.0);
            && buf[4 * ((h - 1) * w + x)..4 * ((h - 1) * w + x) + 4] == [c0.r, c0.g, c0.b, 255]
            && buf[4 * x..4 * x + 4] == [cTop.r, cTop.g, cTop.b, 255]
  {
    HueMapPixelAt(cs, w, h, x, h - 1);
    assert (h - 1 - (h - 1)) as real / h as real * 360.0 == 0.0;
    HueMapPixelAt(cs, w, h, x, 0);
    assert 4 * (0 * w + x) == 4 * x;
  }

  /** With a lawful library every entry of a field buffer is a byte and every
      fourth entry (alpha) is 255. */
  lemma FieldBufferBytes(cs: ColorSpace, hueBar: bool, depth: real, w: nat, h: nat)
    requires Lawful(cs)
    ensures var buf := FieldBuffer(cs, hueBar, depth, w, h);
            forall i :: 0 <= i < |buf| ==> IsByte(buf[i]) && (i % 4 == 3 ==> buf[i] == 255)
  {
    var buf := FieldBuffer(cs, hueBar, depth, w, h);
    forall i | 0 <= i < |buf|
      ensures IsByte(buf[i]) && (i % 4 == 3 ==> buf[i] == 255)
    {
      PixelCount(w, h, i);
      var c := if hueBar then HueMapPixel(cs, w, h, (i / 4) % w, h - 1 - (i / 4) / w)
               else ColorMapPixel(cs, depth, w, h, (i / 4) % w, (i / 4) / w);
      assert InByteRange(c);
      assert buf[i] == Channel(c, i % 4);
    }
  }

  /** A 256 by 256 colour map at depth 0.5 (hue 180) shows, at pixel (128, 128),
      the library colour for saturation and brightness 127.5. */
  lemma ColorMapCentre(cs: ColorSpace)
    ensures var buf, c := ColorMapBuffer(cs, 0.5, 256, 256), cs.hsb2rgba(180.0, 127.5, 127.5);
            buf[4 * (128 * 256 + 128)..4 * (128 * 256 + 128) + 4] == [c.r, c.g, c.b, 255]
  {
    ColorMapPixelAt(cs, 0.5, 256, 256, 128, 128);
    FracOfUnit(0.5);
  }
}
