/** The two directions of the picker's coordinate <-> colour mapping.

    The picker state is a point (selX, selY) of the 0-255 field plus a depth
    selZ. In saturation/brightness mode selZ is the hue as a fraction of a turn,
    selX the saturation and selY the inverted brightness. In hue-bar mode selX
    is the inverted brightness, selY the inverted hue and selZ the saturation
    as a fraction of 255; the colour read back always has full saturation. */
module ColorMapping {
  import opened ColorMath

  /** The picker's (selX, selY, selZ). */
  datatype Selection = Selection(x: real, y: real, z: real)

  /** The HSB that getColor hands to HSB2RGBA for a given state. */
  function SelectedHsb(hueBar: bool, sel: Selection): (c: Hsb)
    ensures 0.0 <= c.h < 360.0
    ensures hueBar ==> c.s == 255.0
    ensures 0.0 <= sel.x <= 255.0 && 0.0 <= sel.y <= 255.0 ==> InHsbRange(c)
  {
    var turn := if hueBar then 1.0 - sel.y / 255.0 else sel.z;
    var s := if hueBar then 255.0 else sel.x;
    var b := if hueBar then sel.x else sel.y;
    Hsb(Frac(turn) * 360.0, s, 255.0 - b)
  }

  /** The state setColor stores for an HSB colour. */
  function SelectionOf(hueBar: bool, c: Hsb): (sel: Selection)
    ensures InHsbRange(c) ==> 0.0 <= sel.x <= 255.0 && 0.0 <= sel.y <= 255.0 && 0.0 <= sel.z <= 1.0
    ensures InHsbRange(c) && hueBar ==> 0.0 < sel.y
    ensures InHsbRange(c) && !hueBar ==> sel.z < 1.0
  {
    if hueBar then Selection(255.0 - c.b, 255.0 - c.h / 360.0 * 255.0, c.s / 255.0)
    else Selection(c.s, 255.0 - c.b, c.h / 360.0)
  }

  /** Saturation/brightness mode loses nothing: reading the colour back after
      storing it gives the same HSB. */
  lemma SaturationBrightnessRoundTrip(c: Hsb)
    requires 0.0 <= c.h < 360.0
    ensures SelectedHsb(false, SelectionOf(false, c)) == c
  {
    FracOfUnit(c.h / 360.0);
  }

  /** Hue-bar mode keeps hue and brightness and replaces the saturation by 255. */
  lemma HueBarRoundTrip(c: Hsb)
    requires 0.0 <= c.h < 360.0
    ensures SelectedHsb(true, SelectionOf(true, c)) == Hsb(c.h, 255.0, c.b)
  {
    FracOfUnit(c.h / 360.0);
  }

  /** The other direction in saturation/brightness mode: a state whose depth is
      already a fraction of a turn is stored again unchanged. */
  lemma SaturationBrightnessSelectionRoundTrip(sel: Selection)
    requires 0.0 <= sel.z < 1.0
    ensures SelectionOf(false, SelectedHsb(false, sel)) == sel
  {
    FracOfUnit(sel.z);
  }

  /** The depth is stored as its fractional part: a depth of a whole number of
      turns (the initial 1.0, say) comes back as that depth minus the whole turns. */
  lemma SaturationBrightnessDepthNormalised(sel: Selection)
    ensures SelectionOf(false, SelectedHsb(false, sel)) == Selection(sel.x, sel.y, Frac(sel.z))
  {
  }

  /** The other direction in hue-bar mode: selX and a non-zero selY survive, the
      depth becomes 1 (full saturation). */
  lemma HueBarSelectionRoundTrip(sel: Selection)
    requires 0.0 < sel.y <= 255.0
    ensures SelectionOf(true, SelectedHsb(true, sel)) == Selection(sel.x, sel.y, 1.0)
  {
    FracOfUnit(1.0 - sel.y / 255.0);
  }

  /** Hue 360 is hue 0: selY = 0 (the top edge of the hue bar) comes back as
      selY = 255 (the bottom edge). */
  lemma HueBarTopWrapsToBottom(x: real, z: real)
    ensures SelectionOf(true, SelectedHsb(true, Selection(x, 0.0, z))) == Selection(x, 255.0, 1.0)
  {
    FracShift(0.0, 1);
  }
}
