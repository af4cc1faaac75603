/** The HSL operators that need the conversion formulas
    (`src/hsl/add.rs`, `src/hsl/subtract.rs`, `src/hsl/equality.rs`,
    `src/hsl/convert_color.rs`, and `rotate_rgb` of `src/hsl/mod.rs`).
    Arithmetic always goes through the RGB hub: both operands to RGB, the
    RGB operator, the result back to HSL.  A right operand of another model
    is first converted into HSL. */
module HslMixed {
  import opened Base
  import Rgb
  import Hsl
  import Hsv
  import opened Formulas
  import Colors

  /** `From<Color> for HSL`: an HSL payload as it is, the others converted. */
  function OfColor(f: Formulas, c: Colors.Color): (r: Hsl.HSL)
    ensures c.HSL? ==> r == c.hsl
    ensures c.HSV? ==> r == f.hslOfHsv(c.hsv)
    ensures c.RGB? ==> r == f.hslOfRgb(c.rgb)
  {
    match c
    case HSL(v) => v
    case HSV(v) => f.hslOfHsv(v)
    case RGB(v) => f.hslOfRgb(v)
  }

  /** `HSL::from(Color::from(h)) == h`. */
  lemma OfColorFromHsl(f: Formulas, h: Hsl.HSL)
    ensures OfColor(f, Colors.FromHsl(h)) == h
  {
  }

  /** The RGB forms of the operands can be added without a byte overflow. */
  predicate AddFits(f: Formulas, a: Hsl.HSL, b: Hsl.HSL)
  {
    Rgb.AddFits(f.rgbOfHsl(a), f.rgbOfHsl(b))
  }

  /** The RGB forms of the operands can be subtracted without underflow. */
  predicate SubFits(f: Formulas, a: Hsl.HSL, b: Hsl.HSL)
  {
    Rgb.SubFits(f.rgbOfHsl(a), f.rgbOfHsl(b))
  }

  /** `Add for HSL`: through RGB; with lossless formulas the result
      denotes the sum of the operands' RGB forms. */
  function Add(f: Formulas, a: Hsl.HSL, b: Hsl.HSL): (r: Hsl.HSL)
    requires AddFits(f, a, b)
    ensures HslRoundTrips(f) ==> f.rgbOfHsl(r) == Rgb.Add(f.rgbOfHsl(a), f.rgbOfHsl(b))
  {
    var left := f.rgbOfHsl(a);
    var right := f.rgbOfHsl(b);
    f.hslOfRgb(Rgb.Add(left, right))
  }

  /** `Sub for HSL`: through RGB; with lossless formulas the result plus
      the right operand gives back the left one, in RGB. */
  function Sub(f: Formulas, a: Hsl.HSL, b: Hsl.HSL): (r: Hsl.HSL)
    requires SubFits(f, a, b)
    ensures HslRoundTrips(f) ==>
      Rgb.AddFits(f.rgbOfHsl(r), f.rgbOfHsl(b)) && Rgb.Add(f.rgbOfHsl(r), f.rgbOfHsl(b)) == f.rgbOfHsl(a)
  {
    var left := f.rgbOfHsl(a);
    var right := f.rgbOfHsl(b);
    f.hslOfRgb(Rgb.Sub(left, right))
  }

  /** HSL addition commutes, whatever the formulas. */
  lemma AddCommutes(f: Formulas, a: Hsl.HSL, b: Hsl.HSL)
    requires AddFits(f, a, b)
    ensures AddFits(f, b, a) && Add(f, a, b) == Add(f, b, a)
  {
  }

  /** `x - x` is the HSL form of black for every `x`. */
  lemma SubSelf(f: Formulas, a: Hsl.HSL)
    ensures SubFits(f, a, a) && Sub(f, a, a) == f.hslOfRgb(Rgb.Black)
  {
    Rgb.SubSelf(f.rgbOfHsl(a));
  }

  /** `Add<HSV> for HSL`: the HSV operand is converted into HSL first. */
  function AddHsv(f: Formulas, a: Hsl.HSL, v: Hsv.HSV): (r: Hsl.HSL)
    requires AddFits(f, a, f.hslOfHsv(v))
    ensures HslRoundTrips(f) ==> f.rgbOfHsl(r) == Rgb.Add(f.rgbOfHsl(a), f.RgbOfHsv(v))
  {
    var other := f.hslOfHsv(v);
    Add(f, a, other)
  }

  /** `Add<RGB> for HSL`: the RGB operand is converted into HSL and then
      back to RGB, so it is added as is only when that round trip is. */
  function AddRgb(f: Formulas, a: Hsl.HSL, c: Rgb.RGB): (r: Hsl.HSL)
    requires AddFits(f, a, f.hslOfRgb(c))
    ensures HslRoundTrips(f) ==> f.rgbOfHsl(r) == Rgb.Add(f.rgbOfHsl(a), c)
  {
    var other := f.hslOfRgb(c);
    Add(f, a, other)
  }

  /** `Add<Color> for HSL`: the same as adding `HSL::from(color)`. */
  function AddColor(f: Formulas, a: Hsl.HSL, x: Colors.Color): (r: Hsl.HSL)
    requires AddFits(f, a, OfColor(f, x))
    ensures r == Add(f, a, OfColor(f, x))
  {
    match x
    case HSL(v) => Add(f, a, v)
    case HSV(v) => Add(f, a, f.hslOfHsv(v))
    case RGB(v) => Add(f, a, f.hslOfRgb(v))
  }

  /** `Sub<HSV> for HSL`. */
  function SubHsv(f: Formulas, a: Hsl.HSL, v: Hsv.HSV): (r: Hsl.HSL)
    requires SubFits(f, a, f.hslOfHsv(v))
    ensures HslRoundTrips(f) ==>
      Rgb.AddFits(f.rgbOfHsl(r), f.RgbOfHsv(v)) && Rgb.Add(f.rgbOfHsl(r), f.RgbOfHsv(v)) == f.rgbOfHsl(a)
  {
    var other := f.hslOfHsv(v);
    Sub(f, a, other)
  }

  /** `Sub<RGB> for HSL`. */
  function SubRgb(f: Formulas, a: Hsl.HSL, c: Rgb.RGB): (r: Hsl.HSL)
    requires SubFits(f, a, f.hslOfRgb(c))
    ensures HslRoundTrips(f) ==>
      Rgb.AddFits(f.rgbOfHsl(r), c) && Rgb.Add(f.rgbOfHsl(r), c) == f.rgbOfHsl(a)
  {
    var other := f.hslOfRgb(c);
    Sub(f, a, other)
  }

  /** `Sub<Color> for HSL`: the same as subtracting `HSL::from(color)`. */
  function SubColor(f: Formulas, a: Hsl.HSL, x: Colors.Color): (r: Hsl.HSL)
    requires SubFits(f, a, OfColor(f, x))
    ensures r == Sub(f, a, OfColor(f, x))
  {
    match x
    case HSL(v) => Sub(f, a, v)
    case HSV(v) => Sub(f, a, f.hslOfHsv(v))
    case RGB(v) => Sub(f, a, f.hslOfRgb(v))
  }

  /** `HSL == HSV`: the HSV operand converted into HSL, then exact. */
  function EqHsv(f: Formulas, a: Hsl.HSL, v: Hsv.HSV): (r: bool)
    ensures r <==> a == f.hslOfHsv(v)
  {
    var other := f.hslOfHsv(v);
    Hsl.Eq(a, other)
  }

  /** `HSL == RGB`. */
  function EqRgb(f: Formulas, a: Hsl.HSL, c: Rgb.RGB): (r: bool)
    ensures r <==> a == f.hslOfRgb(c)
  {
    var other := f.hslOfRgb(c);
    Hsl.Eq(a, other)
  }

  /** `HSL == Color`: always a comparison with `HSL::from(color)`. */
  function EqColor(f: Formulas, a: Hsl.HSL, x: Colors.Color): (r: bool)
    ensures r <==> a == OfColor(f, x)
  {
    match x
    case HSL(v) => Hsl.Eq(a, v)
    case HSV(v) => EqHsv(f, a, v)
    case RGB(v) => EqRgb(f, a, v)
  }

  /** `HSL::rotate_rgb`: the bleed blend of the two RGB forms, back in
      HSL. */
  function RotateRgb(f: Formulas, a: Hsl.HSL, b: Hsl.HSL): (r: Hsl.HSL)
    ensures HslRoundTrips(f) ==> f.rgbOfHsl(r) == Rgb.RotateRgb(f.rgbOfHsl(a), f.rgbOfHsl(b))
  {
    var left := f.rgbOfHsl(a);
    var right := f.rgbOfHsl(b);
    f.hslOfRgb(Rgb.RotateRgb(left, right))
  }

  /** The blend commutes, whatever the formulas. */
  lemma RotateRgbCommutes(f: Formulas, a: Hsl.HSL, b: Hsl.HSL)
    ensures RotateRgb(f, a, b) == RotateRgb(f, b, a)
  {
    Rgb.RotateRgbCommutes(f.rgbOfHsl(a), f.rgbOfHsl(b));
  }
}
