/** The HSV operators that need the conversion formulas
    (`src/hsv/add.rs`, `src/hsv/subtract.rs`, `src/hsv/equality.rs`,
    `src/hsv/convert_color.rs`, and `rotate_rgb` of `src/hsv/mod.rs`).
    Arithmetic always goes through the RGB hub: both operands to RGB, the
    RGB operator, the result back to HSV.  A right operand of another model
    is first converted into HSV. */
module HsvMixed {
  import opened Base
  import Rgb
  import Hsl
  import Hsv
  import opened Formulas
  import Colors

  /** `From<Color> for HSV`: an HSV payload as it is, the others converted. */
  function OfColor(f: Formulas, c: Colors.Color): (r: Hsv.HSV)
    ensures c.HSV? ==> r == c.hsv
    ensures c.HSL? ==> r == f.hsvOfHsl(c.hsl)
    ensures c.RGB? ==> r == f.HsvOfRgb(c.rgb)
  {
    match c
    case HSL(v) => f.hsvOfHsl(v)
    case HSV(v) => v
    case RGB(v) => f.HsvOfRgb(v)
  }

  /** `HSV::from(Color::from(v)) == v`. */
  lemma OfColorFromHsv(f: Formulas, v: Hsv.HSV)
    ensures OfColor(f, Colors.FromHsv(v)) == v
  {
  }

  /** The RGB forms of the operands can be added without a byte overflow. */
  predicate AddFits(f: Formulas, a: Hsv.HSV, b: Hsv.HSV)
  {
    Rgb.AddFits(f.RgbOfHsv(a), f.RgbOfHsv(b))
  }

  /** The RGB forms of the operands can be subtracted without underflow. */
  predicate SubFits(f: Formulas, a: Hsv.HSV, b: Hsv.HSV)
  {
    Rgb.SubFits(f.RgbOfHsv(a), f.RgbOfHsv(b))
  }

  /** `Add for HSV`: through RGB; with lossless formulas the result
      denotes the sum of the operands' RGB forms. */
  function Add(f: Formulas, a: Hsv.HSV, b: Hsv.HSV): (r: Hsv.HSV)
    requires AddFits(f, a, b)
    ensures HsvRoundTrips(f) ==> f.RgbOfHsv(r) == Rgb.Add(f.RgbOfHsv(a), f.RgbOfHsv(b))
  {
    var left := f.RgbOfHsv(a);
    var right := f.RgbOfHsv(b);
    f.HsvOfRgb(Rgb.Add(left, right))
  }

  /** `Sub for HSV`: through RGB; with lossless formulas the result plus
      the right operand gives back the left one, in RGB. */
  function Sub(f: Formulas, a: Hsv.HSV, b: Hsv.HSV): (r: Hsv.HSV)
    requires SubFits(f, a, b)
    ensures HsvRoundTrips(f) ==>
      Rgb.AddFits(f.RgbOfHsv(r), f.RgbOfHsv(b)) && Rgb.Add(f.RgbOfHsv(r), f.RgbOfHsv(b)) == f.RgbOfHsv(a)
  {
    var left := f.RgbOfHsv(a);
    var right := f.RgbOfHsv(b);
    f.HsvOfRgb(Rgb.Sub(left, right))
  }

  /** HSV addition commutes, whatever the formulas. */
  lemma AddCommutes(f: Formulas, a: Hsv.HSV, b: Hsv.HSV)
    requires AddFits(f, a, b)
    ensures AddFits(f, b, a) && Add(f, a, b) == Add(f, b, a)
  {
  }

  /** `x - x` is the HSV form of black for every `x`. */
  lemma SubSelf(f: Formulas, a: Hsv.HSV)
    ensures SubFits(f, a, a) && Sub(f, a, a) == f.HsvOfRgb(Rgb.Black)
  {
    Rgb.SubSelf(f.RgbOfHsv(a));
  }

  /** `Add<HSL> for HSV`: the HSL operand is converted into HSV first. */
  function AddHsl(f: Formulas, a: Hsv.HSV, h: Hsl.HSL): (r: Hsv.HSV)
    requires AddFits(f, a, f.hsvOfHsl(h))
    ensures HsvRoundTrips(f) && HsvOfHslKeepsRgb(f) ==>
      f.RgbOfHsv(r) == Rgb.Add(f.RgbOfHsv(a), f.rgbOfHsl(h))
  {
    var other := f.hsvOfHsl(h);
    Add(f, a, other)
  }

  /** `Add<RGB> for HSV`: the RGB operand is converted into HSV first. */
  function AddRgb(f: Formulas, a: Hsv.HSV, c: Rgb.RGB): (r: Hsv.HSV)
    requires AddFits(f, a, f.HsvOfRgb(c))
    ensures HsvRoundTrips(f) ==> f.RgbOfHsv(r) == Rgb.Add(f.RgbOfHsv(a), c)
  {
    var other := f.HsvOfRgb(c);
    Add(f, a, other)
  }

  /** `Add<Color> for HSV`: the same as adding `HSV::from(color)`. */
  function AddColor(f: Formulas, a: Hsv.HSV, x: Colors.Color): (r: Hsv.HSV)
    requires AddFits(f, a, OfColor(f, x))
    ensures r == Add(f, a, OfColor(f, x))
  {
    match x
    case HSL(v) => Add(f, a, f.hsvOfHsl(v))
    case HSV(v) => Add(f, a, v)
    case RGB(v) => Add(f, a, f.HsvOfRgb(v))
  }

  /** `Sub<HSL> for HSV`. */
  function SubHsl(f: Formulas, a: Hsv.HSV, h: Hsl.HSL): (r: Hsv.HSV)
    requires SubFits(f, a, f.hsvOfHsl(h))
    ensures HsvRoundTrips(f) && HsvOfHslKeepsRgb(f) ==>
      Rgb.AddFits(f.RgbOfHsv(r), f.rgbOfHsl(h)) && Rgb.Add(f.RgbOfHsv(r), f.rgbOfHsl(h)) == f.RgbOfHsv(a)
  {
    var other := f.hsvOfHsl(h);
    Sub(f, a, other)
  }

  /** `Sub<RGB> for HSV`. */
  function SubRgb(f: Formulas, a: Hsv.HSV, c: Rgb.RGB): (r: Hsv.HSV)
    requires SubFits(f, a, f.HsvOfRgb(c))
    ensures HsvRoundTrips(f) ==>
      Rgb.AddFits(f.RgbOfHsv(r), c) && Rgb.Add(f.RgbOfHsv(r), c) == f.RgbOfHsv(a)
  {
    var other := f.HsvOfRgb(c);
    Sub(f, a, other)
  }

  /** `Sub<Color> for HSV`: the same as subtracting `HSV::from(color)`. */
  function SubColor(f: Formulas, a: Hsv.HSV, x: Colors.Color): (r: Hsv.HSV)
    requires SubFits(f, a, OfColor(f, x))
    ensures r == Sub(f, a, OfColor(f, x))
  {
    match x
    case HSL(v) => Sub(f, a, f.hsvOfHsl(v))
    case HSV(v) => Sub(f, a, v)
    case RGB(v) => Sub(f, a, f.HsvOfRgb(v))
  }

  /** `HSV == HSL`: the HSL operand converted into HSV, then exact. */
  function EqHsl(f: Formulas, a: Hsv.HSV, h: Hsl.HSL): (r: bool)
    ensures r <==> a == f.hsvOfHsl(h)
  {
    var other := f.hsvOfHsl(h);
    Hsv.Eq(a, other)
  }

  /** `HSV == RGB`. */
  function EqRgb(f: Formulas, a: Hsv.HSV, c: Rgb.RGB): (r: bool)
    ensures r <==> a == f.HsvOfRgb(c)
  {
    var other := f.HsvOfRgb(c);
    Hsv.Eq(a, other)
  }

  /** `HSV == Color`: always a comparison with `HSV::from(color)`. */
  function EqColor(f: Formulas, a: Hsv.HSV, x: Colors.Color): (r: bool)
    ensures r <==> a == OfColor(f, x)
  {
    match x
    case HSL(v) => EqHsl(f, a, v)
    case HSV(v) => Hsv.Eq(a, v)
    case RGB(v) => EqRgb(f, a, v)
  }

  /** `HSV::rotate_rgb`: the bleed blend of the two RGB forms, back in
      HSV. */
  function RotateRgb(f: Formulas, a: Hsv.HSV, b: Hsv.HSV): (r: Hsv.HSV)
    ensures HsvRoundTrips(f) ==> f.RgbOfHsv(r) == Rgb.RotateRgb(f.RgbOfHsv(a), f.RgbOfHsv(b))
  {
    var left := f.RgbOfHsv(a);
    var right := f.RgbOfHsv(b);
    f.HsvOfRgb(Rgb.RotateRgb(left, right))
  }

  /** The blend commutes, whatever the formulas. */
  lemma RotateRgbCommutes(f: Formulas, a: Hsv.HSV, b: Hsv.HSV)
    ensures RotateRgb(f, a, b) == RotateRgb(f, b, a)
  {
    Rgb.RotateRgbCommutes(f.RgbOfHsv(a), f.RgbOfHsv(b));
  }
}
