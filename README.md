# ColorCanvas: a verified model of the colour-picker field

This project models the `ColorCanvas` widget of the PANTONE colour picker: the
square field in which the user picks a colour. The widget keeps a selected point
`(selX, selY)` on a 0-255 grid, a depth `selZ`, a repaint flag `newImage` and
the last generated image. It fills that image pixel by pixel from HSB formulas,
and it maps a colour to a point and back again. It has two field modes:

- saturation/brightness: the depth is the hue;
- hue bar (`hueBar`): the depth holds the saturation, and the field shows hue
  against brightness at full saturation.

A third flag, `alphaBar`, replaces the field by an alpha gradient.

Files, one module each:

- `color_math.dfy` (`ColorMath`): RGB and HSB values. The colour-space library
  is a value `ColorSpace(hsb2rgba, rgba2hsb)` handed to the widget. Its whole
  contract is the predicate `Lawful`: every RGB channel is in [0, 255], every hue
  in [0, 360) and every saturation and brightness in [0, 255]. This file also has
  `Frac(v) = v - floor(v)` and `Round(v) = floor(v + 0.5)` (JavaScript's
  `Math.round`).
- `field_renderer.dfy` (`FieldRenderer`): the contents of the two field images,
  as functions on the flat RGBA buffer (row-major, four entries per pixel).
  Lemmas state what each pixel holds.
- `color_mapping.dfy` (`ColorMapping`): the HSB that `getColor` reads from a
  state, and the state that `setColor` stores for an HSB. Round-trip lemmas cover
  both modes and both directions.
- `cursor.dfy` (`Cursor`): the luminance of the selected colour, the ring colour
  chosen from it, and the cursor's pixel position.
- `color_canvas.dfy` (`Canvas`): the `ColorCanvas` class and an `ImageData`
  class (width, height, `data: array<int>`). The two fill loops are methods with
  loop invariants. Each is proved to produce exactly the buffer that
  `FieldRenderer` specifies. `Paint`, `MakeImage`, `SetXY`, `SetColor` and
  `Repaint` update the fields as the source does. Each states the new selection,
  the repaint flag and, when the field is regenerated, the new image at the
  surface's size. `FieldIsCurrent` says that a field not marked out of date is
  the field for the current depth at the surface's width and height. When
  nothing is built (alpha bar or empty surface), `SetColor` and `Repaint` keep
  the stored image and the constructor leaves it null.
  Two client methods, `CursorMoveKeepsField` and `AlphaBarBuildsNothing`, use
  these contracts from the outside.

The rows below refer to these definitions, which have no row of their own:
- `ColorMapPixel` and `HueMapPixel`: the per-pixel HSB2RGBA calls.
- `ColorMapBuffer`, `HueMapBuffer` and `FieldBuffer`: the whole buffers.
  `FieldBuffer` is makeImage's choice between the two maps.
- `Valid` and `FieldIsCurrent`: the class invariant and the "field is up to
  date" predicate.

Drawing on the canvas is host I/O, so `Paint` returns what it would draw as a
`Frame`. A `Frame` is either `Skipped` or `Drawn(layer, x, y, stroke)`. The
surface itself is just its `width` and `height`.

All arithmetic is exact `real` arithmetic. Where the source computes with
doubles, the model states the formulas, not the bits.

Behaviour of the code worth knowing:

- `setXY` stores its arguments unclamped, and `setColor` stores `h / 360`
  without normalising it. The fractional part is taken only where a hue is
  computed: in `getColor` and in the two field fills. The initial depth is `1.0`.
- `paint` reads `this.image.width` before it tests `!this.image`
  (dist/js/ColorCanvas-compiled.js:52 and :62), so a missing canvas fails there.
  The model always has a surface.
- Pixel (128, 128) of a 256 by 256 colour map at depth 0.5 gets saturation and
  brightness 127.5 (`FieldRenderer.ColorMapCentre`).
- At the HSB level, storing the HSB read from a state gives that state back in
  saturation/brightness mode, once the depth is a fraction. In hue-bar mode the
  depth becomes 1, and `selY = 0` (hue 360) comes back as `selY = 255` (hue 0).
  The round trip through the library's integer RGB is not covered, because the
  library is not assumed to invert itself.

## Model

| member | source | states |
|---|---|---|
| ColorMath.Frac | dist/js/ColorCanvas-compiled.js:310 | `h - Math.floor(h)` is in [0, 1), and what it removes is a whole number |
| ColorMath.Round | dist/js/ColorCanvas-compiled.js:59-60 | `Math.round` gives the integer within half a unit, with halves rounded up |
| FieldRenderer.ColorMapPixelAt | dist/js/ColorCanvas-compiled.js:149-171 | colour map pixel (x, y) sits at entries 4(yw+x)..+3. It holds the library colour for hue frac(b)·360, saturation x/w·255 and brightness (1−y/h)·255, then alpha 255 |
| FieldRenderer.HueMapPixelAt | dist/js/ColorCanvas-compiled.js:183-205 | the reverse row scan puts hue (h−1−r)/h·360 on output row r. Each pixel has saturation 255, brightness (1−x/w)·255 and alpha 255 |
| FieldRenderer.HueOfRow | dist/js/ColorCanvas-compiled.js:191-197 | on output row r the hue `frac(y/h)·360` of scan row y = h−1−r is (h−1−r)/h·360: the fractional part removes nothing |
| FieldRenderer.HueMapEdgeRows | dist/js/ColorCanvas-compiled.js:191-205 | the bottom output row has hue 0 and the top row hue (h−1)/h·360 |
| FieldRenderer.FieldBufferBytes | dist/js/ColorCanvas-compiled.js:149-205 | with a lawful library, every entry of either field buffer is a byte and every alpha entry is 255 |
| FieldRenderer.ColorMapCentre | dist/js/ColorCanvas-compiled.js:157-168 | 256×256 map at depth 0.5: pixel (128, 128) is the library colour for (180, 127.5, 127.5) |
| FieldRenderer.ColorMapEntries | dist/js/ColorCanvas-compiled.js:159-169 | the four writes for pixel (x, y) land inside the 4wh buffer, on the entries that hold that pixel's r, g, b and 255 |
| FieldRenderer.HueMapEntries | dist/js/ColorCanvas-compiled.js:191-203 | the four writes of scan row y land on output row h−1−y, inside the buffer |
| ColorMapping.SelectedHsb | dist/js/ColorCanvas-compiled.js:306-312 | `getColor` always passes a hue in [0, 360), and saturation 255 in hue-bar mode. The HSB is in range when selX and selY are in [0, 255] |
| ColorMapping.SelectionOf | dist/js/ColorCanvas-compiled.js:287-295 | for an in-range HSB, `setColor` stores selX and selY in [0, 255] and a depth in [0, 1]. The depth is below 1 in saturation/brightness mode, and selY is above 0 in hue-bar mode |
| ColorMapping.SaturationBrightnessRoundTrip | dist/js/ColorCanvas-compiled.js:287-312 | without the hue bar, reading back after storing gives the same HSB |
| ColorMapping.HueBarRoundTrip | dist/js/ColorCanvas-compiled.js:287-312 | with the hue bar, reading back keeps hue and brightness and gives saturation 255 |
| ColorMapping.SaturationBrightnessSelectionRoundTrip | dist/js/ColorCanvas-compiled.js:287-312 | without the hue bar, storing the HSB read from a state whose depth is in [0, 1) gives that state back. The round trip through the library's integer RGB is not covered |
| ColorMapping.SaturationBrightnessDepthNormalised | dist/js/ColorCanvas-compiled.js:287-312 | for any depth, the stored depth is its fractional part |
| ColorMapping.HueBarSelectionRoundTrip | dist/js/ColorCanvas-compiled.js:287-312 | with the hue bar, selX and a selY in (0, 255] survive the round trip, and the depth becomes 1 |
| ColorMapping.HueBarTopWrapsToBottom | dist/js/ColorCanvas-compiled.js:287-312 | with the hue bar, selY = 0 comes back as 255 |
| Cursor.Luminance | dist/js/ColorCanvas-compiled.js:66-67 | luminance 0.3r + 0.59g + 0.114b lies in [0, 256.02] for byte channels, and is 1.004·v for grey v |
| Cursor.StrokeFor | dist/js/ColorCanvas-compiled.js:96 | the ring is white exactly when luminance is below 128, so 128 itself gives black |
| Cursor.GreyStroke | dist/js/ColorCanvas-compiled.js:66-96 | on grey v the ring is white for v ≤ 127 and black from 128 up |
| Cursor.StrokeMonotone | dist/js/ColorCanvas-compiled.js:66-96 | a darker colour never turns a white ring black |
| Cursor.CursorOffset | dist/js/ColorCanvas-compiled.js:59-60 | `round(sel·size/255)` lies in [0, size] for sel in [0, 255] |
| Cursor.CursorOffsetEdges | dist/js/ColorCanvas-compiled.js:59-60 | sel 0 maps to pixel 0 and sel 255 to pixel `size` |
| Cursor.CursorOffsetMonotone | dist/js/ColorCanvas-compiled.js:59-60 | the pixel position is monotone in the selection |
| Canvas.ImageData.constructor | dist/js/ColorCanvas-compiled.js:150 | `getImageData(0, 0, w, h)` gives a fresh w×h buffer of 4wh entries |
| Canvas.ColorCanvas.constructor | dist/js/ColorCanvas-compiled.js:26-42 | initial state is (128, 128, 1.0), and the constructor paints once. The flag stays set only with the alpha bar or a zero-area surface. Otherwise the stored image has the surface's width and height and holds the field for depth 1.0; when the flag stays set, `imageData` is still null |
| Canvas.ColorCanvas.GetColor | dist/js/ColorCanvas-compiled.js:306-312 | with a lawful library, the colour at the selection has byte channels |
| Canvas.ColorCanvas.CurrentFrame | dist/js/ColorCanvas-compiled.js:52-104 | `paint` draws nothing exactly when the surface has zero width or height |
| Canvas.ColorCanvas.Paint | dist/js/ColorCanvas-compiled.js:51-75 | a zero-area surface draws nothing and changes no field. Otherwise the field is regenerated exactly when `newImage` was set and there is no alpha bar, and the cursor ring is drawn at the rescaled selection in the contrast colour |
| Canvas.ColorCanvas.MakeImage | dist/js/ColorCanvas-compiled.js:116-136 | with the alpha bar nothing is built and the flag stays. Otherwise the hue map or colour map is stored and the flag is cleared |
| Canvas.ColorCanvas.MakeColorMap | dist/js/ColorCanvas-compiled.js:149-171 | the nested loops fill a fresh 4wh buffer with exactly the colour map |
| Canvas.ColorCanvas.MakeHueMap | dist/js/ColorCanvas-compiled.js:183-205 | the reverse-scan loops fill a fresh 4wh buffer with exactly the hue map |
| Canvas.ColorCanvas.SetXY | dist/js/ColorCanvas-compiled.js:274-278 | only selX and selY change. The field is rebuilt only if it was already out of date, and a current field stays current |
| Canvas.ColorCanvas.SetColor | dist/js/ColorCanvas-compiled.js:287-297 | stores the selection for RGBA2HSB(c). The stored field becomes the field for the new depth at the surface's width and height. Reading back gives HSB2RGBA(h, s, b), or HSB2RGBA(h, 255, b) with the hue bar. With the alpha bar or an empty surface nothing is built and the stored image is kept |
| Canvas.ColorCanvas.Repaint | dist/js/ColorCanvas-compiled.js:320-323 | the field is regenerated from the current depth unless the alpha bar is on or the surface is empty. In those two cases `newImage` stays true and the stored image is kept |

## Left out

- Canvas and DOM calls: `getContext`, `putImageData`, `beginPath`, `arc`,
  `stroke` and `document.createElement`. These are host drawing I/O. `Paint`
  returns the layer, the ring position and the ring colour as a `Frame`. It does
  not model the ring's radius 9, its line widths, its 0.35 opacity or the
  half-pixel offset of the arc.
- `_makeAlphaMap` (dist/js/ColorCanvas-compiled.js:217-264): the native gradient
  fill and the jQuery mouse handlers, together with the `mouseStarted` field they
  set. These are event-driven UI wiring. The model records only that `Paint`
  draws the alpha gradient (`AlphaGradient`) instead of the stored image when
  `alphaBar` is set.
- The `!this.image` branches (dist/js/ColorCanvas-compiled.js:62 and 117-121).
  They cannot change the outcome, because `paint` dereferences the canvas first.
- The colour-space library `ColorSpace.es6` is not part of this model. It enters
  only through its range contract (`Lawful`), assumed for all inputs, and its
  functions are not proved inverse. The model assumes its RGB channels are
  integers, so the clamping and rounding of the browser's `Uint8ClampedArray` on
  store does not arise.
- IEEE-754 double rounding: the model uses exact reals and does not claim
  bit-exact agreement with JavaScript.
- The pixels that `getImageData` returns before the fill are not modelled: both
  fill loops are proved to overwrite every entry.
- Babel class boilerplate and the module export.
- Resizing the surface: `paint` reads the canvas's width and height on every
  call (dist/js/ColorCanvas-compiled.js:52-53). After a host resize it rescales
  the cursor but still puts the old-size image until `newImage` is set. The
  model has no operation that changes `width` or `height`, so it does not
  capture that stale-size frame.
