/** The colour-picker field widget: its state (selected point, depth, repaint
    flag, last generated image), the two loops that fill a field image, and the
    operations that move the cursor, set or read the colour and repaint.

    The drawing surface is its width and height; what paint draws on it is
    returned as a Frame value instead of being sent to a 2-D context. */
module Canvas {
  import opened ColorMath
  import opened FieldRenderer
  import opened ColorMapping
  import opened Cursor

  /** The pixels of a surface region: w * h RGBA pixels, four entries each. */
  class ImageData {
    const width: nat
    const height: nat
    const data: array<int>

    /** getImageData(0, 0, w, h). The pixels the surface held before are not
        modelled: the field loops overwrite every entry. */
    constructor (w: nat, h: nat)
      ensures width == w && height == h
      ensures fresh(data) && data.Length == 4 * w * h
    {
      width, height := w, h;
      data := new int[4 * w * h];
    }
  }

  /** What paint puts under the cursor: the stored field image or the alpha gradient. */
  datatype Layer = FieldImage | AlphaGradient

  /** What one call of paint draws: nothing on a zero-area surface, otherwise a
      layer and the cursor ring at pixel (x, y) in the given stroke colour. */
  datatype Frame = Skipped | Drawn(layer: Layer, x: int, y: int, stroke: Stroke)

  class ColorCanvas {
    const space: ColorSpace
    const hueBar: bool
    const alphaBar: bool
    const maxX: real := 255.0
    const maxY: real := 255.0

    var width: nat
    var height: nat
    var newImage: bool
    var selX: real
    var selY: real
    var selZ: real
    var imageData: ImageData?

    ghost predicate Valid()
      reads this
    {
      && Lawful(space)
      && (imageData != null ==> imageData.data.Length == 4 * imageData.width * imageData.height)
      && (!alphaBar && !newImage ==> imageData != null)
    }

    /** Between public calls: once the field has been generated and not
        invalidated since, the stored image is the field for the current depth
        at the surface's size. */
    ghost predicate FieldIsCurrent()
      reads this, if imageData == null then {} else {imageData.data}
    {
      !alphaBar && !newImage ==>
        && imageData != null
        && imageData.width == width && imageData.height == height
        && imageData.data[..] == FieldBuffer(space, hueBar, selZ, width, height)
    }

    /** The colour at the current selection. */
    function GetColor(): (c: Rgb)
      reads this
      ensures Lawful(space) ==> InByteRange(c)
    {
      var hsb := SelectedHsb(hueBar, Selection(selX, selY, selZ));
      space.hsb2rgba(hsb.h, hsb.s, hsb.b)
    }

    /** What paint draws in the current state. */
    function CurrentFrame(): (f: Frame)
      reads this
      ensures f.Skipped? <==> width == 0 || height == 0
    {
      if width == 0 || height == 0 then Skipped
      else Drawn(if alphaBar then AlphaGradient else FieldImage,
                 CursorOffset(selX, width), CursorOffset(selY, height),
                 StrokeFor(Luminance(GetColor())))
    }

    constructor (space: ColorSpace, width: nat, height: nat, hueBar: bool, alphaBar: bool)
      requires Lawful(space)
      ensures Valid() && FieldIsCurrent()
      ensures this.space == space && this.hueBar == hueBar && this.alphaBar == alphaBar
      ensures this.width == width && this.height == height
      ensures selX == 128.0 && selY == 128.0 && selZ == 1.0
      ensures newImage == (alphaBar || width == 0 || height == 0)
      ensures newImage ==> imageData == null
    {
      this.space := space;
      this.hueBar := hueBar;
      this.alphaBar := alphaBar;
      this.width := width;
      this.height := height;
      newImage := true;
      selX, selY, selZ := 128.0, 128.0, 1.0;
      imageData := null;
      new;
      var frame := Paint();
    }

    /** Draws the field (regenerating it first when it is out of date) and the
        cursor; a zero-area surface is left alone. */
    method Paint() returns (frame: Frame)
      requires Valid()
      modifies this
      ensures Valid()
      ensures selX == old(selX) && selY == old(selY) && selZ == old(selZ)
      ensures width == old(width) && height == old(height)
      ensures frame == CurrentFrame()
      ensures if width > 0 && height > 0 && old(newImage) && !alphaBar
              then !newImage && fresh(imageData) && imageData.width == width && imageData.height == height
                   && imageData.data[..] == FieldBuffer(space, hueBar, selZ, width, height)
              else newImage == old(newImage) && imageData == old(imageData)
      ensures old(FieldIsCurrent()) ==> FieldIsCurrent()
    {
      var w, h := width, height;
      if w == 0 || h == 0 {
        return Skipped;
      }
      var x, y := Round(selX * w as real / maxX), Round(selY * h as real / maxY);
      if newImage {
        MakeImage(selZ, w, h);
      }
      var l := Luminance(GetColor());
      var layer := if !alphaBar then FieldImage else AlphaGradient;
      frame := Drawn(layer, x, y, StrokeFor(l));
    }

    /** Regenerates the field image for depth b on a w-by-h surface, unless the
        widget shows the alpha gradient. */
    method MakeImage(b: real, w: nat, h: nat)
      requires Valid()
      modifies this
      ensures Valid()
      ensures selX == old(selX) && selY == old(selY) && selZ == old(selZ)
      ensures width == old(width) && height == old(height)
      ensures if alphaBar
              then newImage == old(newImage) && imageData == old(imageData)
              else !newImage && fresh(imageData) && imageData.width == w && imageData.height == h
                   && imageData.data[..] == FieldBuffer(space, hueBar, b, w, h)
    {
      if !alphaBar {
        var imgData;
        if hueBar {
          imgData := MakeHueMap(w, h);
        } else {
          imgData := MakeColorMap(b, w, h);
        }
        newImage := false;
        imageData := imgData;
      }
    }

    /** Fills a w-by-h image row by row with the saturation/brightness plane at
        hue frac(b) * 360. */
    method MakeColorMap(b: real, w: nat, h: nat) returns (imgData: ImageData)
      ensures fresh(imgData) && fresh(imgData.data)
      ensures imgData.width == w && imgData.height == h
      ensures imgData.data[..] == ColorMapBuffer(space, b, w, h)
    {
      imgData := new ImageData(w, h);
      var data := imgData.data;
      ghost var spec := ColorMapBuffer(space, b, w, h);
      var index := 0;
      var hue := Frac(b) * 360.0;
      var y := 0;
      while y < h
        invariant 0 <= y <= h
        invariant index == 4 * (y * w) && index <= 4 * w * h
        invariant data[..index] == spec[..index]
      {
        var brightness := 1.0 - y as real / h as real;
        var x := 0;
        while x < w
          invariant 0 <= x <= w
          invariant index == 4 * (y * w + x) && index <= 4 * w * h
          invariant data[..index] == spec[..index]
        {
          var saturation := x as real / w as real;
          var rgba := space.hsb2rgba(hue, saturation * 255.0, brightness * 255.0);
          PixelInBuffer(w, h, x, y);
          ghost var start := index;
          data[index] := rgba.r;
          index := index + 1;
          data[index] := rgba.g;
          index := index + 1;
          data[index] := rgba.b;
          index := index + 1;
          data[index] := 255;
          index := index + 1;
          assert data[start..index] == [rgba.r, rgba.g, rgba.b, 255];
          ColorMapStep(space, b, w, h, x, y, data[..]);
          x := x + 1;
        }
        RowEnd(w, h, y);
        y := y + 1;
      }
      assert index == 4 * w * h;
    }

    /** Fills a w-by-h image with the hue/brightness plane at full saturation,
        scanning the hue rows from the last one up to row 0. */
    method MakeHueMap(w: nat, h: nat) returns (imgData: ImageData)
      ensures fresh(imgData) && fresh(imgData.data)
      ensures imgData.width == w && imgData.height == h
      ensures imgData.data[..] == HueMapBuffer(space, w, h)
    {
      imgData := new ImageData(w, h);
      var data := imgData.data;
      var index := 0;
      var saturation := 1.0;
      var y: int := h - 1;
      while y >= 0
        invariant -1 <= y < h
        invariant index == 4 * ((h - 1 - y) * w) && index <= 4 * w * h
        invariant forall k :: 0 <= k < index ==> data[k] == HueMapEntry(space, w, h, k)
      {
        var hue := y as real / h as real;
        hue := (hue - hue.Floor as real) * 360.0;
        var x := 0;
        while x < w
          invariant 0 <= x <= w
          invariant index == 4 * ((h - 1 - y) * w + x) && index <= 4 * w * h
          invariant forall k :: 0 <= k < index ==> data[k] == HueMapEntry(space, w, h, k)
        {
          var brightness := 1.0 - x as real / w as real;
          var rgba := space.hsb2rgba(hue, saturation * 255.0, brightness * 255.0);
          HueMapEntries(space, w, h, x, h - 1 - y);
          assert rgba == HueMapPixel(space, w, h, x, y);
          data[index] := rgba.r;
          index := index + 1;
          data[index] := rgba.g;
          index := index + 1;
          data[index] := rgba.b;
          index := index + 1;
          data[index] := 255;
          index := index + 1;
          x := x + 1;
        }
        RowEnd(w, h, h - 1 - y);
        y := y - 1;
      }
      assert index == 4 * w * h;
    }

    /** Moves the cursor to (x, y) and paints; the field is regenerated only if
        it was already out of date. */
    method SetXY(x: real, y: real) returns (frame: Frame)
      requires Valid()
      modifies this
      ensures Valid()
      ensures selX == x && selY == y && selZ == old(selZ)
      ensures width == old(width) && height == old(height)
      ensures frame == CurrentFrame()
      ensures if width > 0 && height > 0 && old(newImage) && !alphaBar
              then !newImage && fresh(imageData) && imageData.width == width && imageData.height == height
                   && imageData.data[..] == FieldBuffer(space, hueBar, selZ, width, height)
              else newImage == old(newImage) && imageData == old(imageData)
      ensures old(FieldIsCurrent()) ==> FieldIsCurrent()
    {
      selX := x;
      selY := y;
      frame := Paint();
    }

    /** Stores the selection for colour c and repaints with a regenerated field. */
    method SetColor(c: Rgb) returns (frame: Frame)
      requires Valid()
      modifies this
      ensures Valid() && FieldIsCurrent()
      ensures Selection(selX, selY, selZ) == SelectionOf(hueBar, space.rgba2hsb(c.r, c.g, c.b))
      ensures var hsb := space.rgba2hsb(c.r, c.g, c.b);
              GetColor() == space.hsb2rgba(hsb.h, if hueBar then 255.0 else hsb.s, hsb.b)
      ensures width == old(width) && height == old(height)
      ensures newImage == (alphaBar || width == 0 || height == 0)
      ensures newImage ==> imageData == old(imageData)
      ensures frame == CurrentFrame()
    {
      var hsb := space.rgba2hsb(c.r, c.g, c.b);
      var moved: Frame;
      if hueBar {
        selZ := hsb.s / 255.0;
        moved := SetXY(255.0 - hsb.b, 255.0 - hsb.h / 360.0 * 255.0);
        HueBarRoundTrip(hsb);
      } else {
        selZ := hsb.h / 360.0;
        moved := SetXY(hsb.s, 255.0 - hsb.b);
        SaturationBrightnessRoundTrip(hsb);
      }
      frame := Repaint();
    }

    /** Marks the field out of date and paints. */
    method Repaint() returns (frame: Frame)
      requires Valid()
      modifies this
      ensures Valid() && FieldIsCurrent()
      ensures selX == old(selX) && selY == old(selY) && selZ == old(selZ)
      ensures width == old(width) && height == old(height)
      ensures newImage == (alphaBar || width == 0 || height == 0)
      ensures frame == CurrentFrame()
      ensures !newImage ==> fresh(imageData) && imageData.width == width && imageData.height == height
      ensures newImage ==> imageData == old(imageData)
    {
      newImage := true;
      frame := Paint();
    }
  }

  /** A client: after setColor on a 10 by 10 surface the stored field is the
      colour map for the new depth, and moving the cursor keeps that image. */
  method CursorMoveKeepsField(cs: ColorSpace, c: Rgb, x: real, y: real)
    requires Lawful(cs)
  {
    var canvas := new ColorCanvas(cs, 10, 10, false, false);
    assert canvas.imageData.width == 10 && canvas.imageData.height == 10;
    var frame := canvas.SetColor(c);
    var field := canvas.imageData;
    assert field.data[..] == ColorMapBuffer(cs, canvas.selZ, 10, 10);
    frame := canvas.SetXY(x, y);
    assert canvas.imageData == field;
    assert frame.Drawn? && frame.layer == FieldImage;
  }

  /** A client: an alpha bar never builds a field image, whatever is painted. */
  method AlphaBarBuildsNothing(cs: ColorSpace, c: Rgb)
    requires Lawful(cs)
  {
    var bar := new ColorCanvas(cs, 10, 10, false, true);
    assert bar.imageData == null;
    var frame := bar.SetColor(c);
    assert bar.imageData == null;
    frame := bar.Repaint();
    assert bar.imageData == null;
    assert frame.Drawn? && frame.layer == AlphaGradient;
  }

  /** After the last pixel of output row r the index is at the start of row r + 1. */
  lemma RowEnd(w: nat, h: nat, r: nat)
    requires r < h
    ensures 4 * (r * w + w) == 4 * ((r + 1) * w) && 4 * ((r + 1) * w) <= 4 * w * h
  {
    MulAtLeast(h - r, w + 1);
    assert h * w == (h - r - 1) * w + (r + 1) * w;
  }
}
