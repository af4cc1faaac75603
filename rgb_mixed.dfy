/** The RGB operators whose other operand is another model or a `Color`
    (`src/rgb/subtract.rs`, `src/rgb/equality.rs`,
    `src/rgb/convert_color.rs`): the other operand is converted to RGB
    first, then the RGB operator applies. */
module RgbMixed {
  import opened Base
  import Rgb
  import Hsl
  import Hsv
  import opened Formulas
  import Colors
  import Cylindrical

  /** `From<Color> for RGB`: an RGB payload as it is, the others converted. */
  function OfColor(f: Formulas, c: Colors.Color): (r: Rgb.RGB)
    ensures c.RGB? ==> r == c.rgb
    ensures c.HSL? ==> r == f.rgbOfHsl(c.hsl)
    ensures c.HSV? ==> r == f.RgbOfHsv(c.hsv)
  {
    match c
    case HSL(v) => f.rgbOfHsl(v)
    case HSV(v) => f.RgbOfHsv(v)
    case RGB(v) => v
  }

  /** `RGB::from(Color::from(x)) == x`. */
  lemma OfColorFromRgb(f: Formulas, x: Rgb.RGB)
    ensures OfColor(f, Colors.FromRgb(x)) == x
  {
  }

  /** `Sub<HSL> for RGB`: the difference with the HSL operand's RGB. */
  function SubHsl(f: Formulas, a: Rgb.RGB, h: Hsl.HSL): (r: Rgb.RGB)
    requires Rgb.SubFits(a, f.rgbOfHsl(h))
    ensures Rgb.AddFits(r, f.rgbOfHsl(h)) && Rgb.Add(r, f.rgbOfHsl(h)) == a
  {
    var other := f.rgbOfHsl(h);
    Rgb.Sub(a, other)
  }

  /** `Sub<HSV> for RGB`. */
  function SubHsv(f: Formulas, a: Rgb.RGB, v: Hsv.HSV): (r: Rgb.RGB)
    requires Rgb.SubFits(a, f.RgbOfHsv(v))
    ensures Rgb.AddFits(r, f.RgbOfHsv(v)) && Rgb.Add(r, f.RgbOfHsv(v)) == a
  {
    var other := f.RgbOfHsv(v);
    Rgb.Sub(a, other)
  }

  /** `Sub<Color> for RGB`: the same as subtracting `RGB::from(color)`. */
  function SubColor(f: Formulas, a: Rgb.RGB, x: Colors.Color): (r: Rgb.RGB)
    requires Rgb.SubFits(a, OfColor(f, x))
    ensures r == Rgb.Sub(a, OfColor(f, x))
  {
    match x
    case HSL(v) => Rgb.Sub(a, f.rgbOfHsl(v))
    case HSV(v) => Rgb.Sub(a, f.RgbOfHsv(v))
    case RGB(v) => Rgb.Sub(a, v)
  }

  /** `Add<HSL> for RGB` (its source is not part of this model; taken to
      mirror `Sub<HSL>`). */
  function AddHsl(f: Formulas, a: Rgb.RGB, h: Hsl.HSL): (r: Rgb.RGB)
    requires Rgb.AddFits(a, f.rgbOfHsl(h))
    ensures Rgb.SubFits(r, f.rgbOfHsl(h)) && Rgb.Sub(r, f.rgbOfHsl(h)) == a
  {
    Rgb.Add(a, f.rgbOfHsl(h))
  }

  /** `Add<HSV> for RGB` (taken to mirror `Sub<HSV>`). */
  function AddHsv(f: Formulas, a: Rgb.RGB, v: Hsv.HSV): (r: Rgb.RGB)
    requires Rgb.AddFits(a, f.RgbOfHsv(v))
    ensures Rgb.SubFits(r, f.RgbOfHsv(v)) && Rgb.Sub(r, f.RgbOfHsv(v)) == a
  {
    Rgb.Add(a, f.RgbOfHsv(v))
  }

  /** `RGB == HSL`: the HSL operand converted to RGB, then field-wise. */
  function EqHsl(f: Formulas, a: Rgb.RGB, h: Hsl.HSL): (r: bool)
    ensures r <==> a == f.rgbOfHsl(h)
  {
    var other := f.rgbOfHsl(h);
    Rgb.Eq(a, other)
  }

  /** `RGB == HSV`. */
  function EqHsv(f: Formulas, a: Rgb.RGB, v: Hsv.HSV): (r: bool)
    ensures r <==> a == f.RgbOfHsv(v)
  {
    var other := f.RgbOfHsv(v);
    Rgb.Eq(a, other)
  }

  /** `RGB == Color`: the tag decides which typed comparison applies; in
      every case it compares with `RGB::from(color)`. */
  function EqColor(f: Formulas, a: Rgb.RGB, x: Colors.Color): (r: bool)
    ensures r <==> a == OfColor(f, x)
  {
    match x
    case HSL(v) => EqHsl(f, a, v)
    case HSV(v) => EqHsv(f, a, v)
    case RGB(v) => Rgb.Eq(a, v)
  }

  /** `RGB::rotate_hue`: to HSL, `HSL::rotate_hue` as written, back to RGB.
      Whatever the formulas, only the hue of the HSL form moves, by the
      reflection rule; with a lossless round trip a zero turn of a colour
      whose HSL form is in range gives the colour back. */
  function RotateHue(f: Formulas, c: Rgb.RGB, amount: real): (r: Rgb.RGB)
    ensures exists h: Hsl.HSL :: (r == f.rgbOfHsl(h) && h.saturation == f.hslOfRgb(c).saturation &&
      h.lightness == f.hslOfRgb(c).lightness && h.hue == Cylindrical.ReflectedHue(f.hslOfRgb(c).hue, amount))
    ensures Cylindrical.InHueRange(Cylindrical.Shifted(f.hslOfRgb(c).hue, amount)) ==>
      r == RotateHueWrapped(f, c, amount)
    ensures HslRoundTrips(f) && Hsl.InRange(f.hslOfRgb(c)) && amount == 0.0 ==> r == c
  {
    var hsl := f.hslOfRgb(c);
    f.rgbOfHsl(Hsl.RotatedAsWritten(hsl, amount))
  }

  /** The evidently intended `RGB::rotate_hue`: through HSL with the
      corrected rotation, so the HSL form's hue stays in range at the
      rotated angle. */
  function RotateHueWrapped(f: Formulas, c: Rgb.RGB, amount: real): (r: Rgb.RGB)
    ensures exists h: Hsl.HSL :: (r == f.rgbOfHsl(h) && h.saturation == f.hslOfRgb(c).saturation &&
      h.lightness == f.hslOfRgb(c).lightness && Cylindrical.InHueRange(h.hue) &&
      Cylindrical.SameAngle(h.hue, f.hslOfRgb(c).hue + amount))
  {
    f.rgbOfHsl(Hsl.RotateHueWrapped(f.hslOfRgb(c), amount))
  }

  /** With lossless formulas a colour equals, and minus its own HSL or HSV
      form leaves, black (the documentation's examples for 56, 42, 90 and
      255, 42, 90). */
  lemma OwnConversions(f: Formulas, a: Rgb.RGB)
    requires HslRoundTrips(f) && HsvRoundTrips(f)
    ensures EqHsl(f, a, f.hslOfRgb(a)) && EqHsv(f, a, f.HsvOfRgb(a))
    ensures Rgb.SubFits(a, f.rgbOfHsl(f.hslOfRgb(a))) && SubHsl(f, a, f.hslOfRgb(a)) == Rgb.Black
    ensures Rgb.SubFits(a, f.RgbOfHsv(f.HsvOfRgb(a))) && SubHsv(f, a, f.HsvOfRgb(a)) == Rgb.Black
  {
    assert f.rgbOfHsl(f.hslOfRgb(a)) == a;
    assert f.RgbOfHsv(f.HsvOfRgb(a)) == a;
  }
}
