/** The `Color` tagged union (`src/color/mod.rs`): its variants, the
    wrapping constructors, the tag predicates and the `From<model> for
    Color` conversions (`src/color/convert_*.rs`). */
module Colors {
  import Base
  import Rgb
  import Hsl
  import Hsv

  datatype Color = HSL(hsl: Hsl.HSL) | HSV(hsv: Hsv.HSV) | RGB(rgb: Rgb.RGB)

  /** The variant a colour is tagged with. */
  datatype Model = HslModel | HsvModel | RgbModel

  function Tag(c: Color): Model
  {
    match c
    case HSL(_) => HslModel
    case HSV(_) => HsvModel
    case RGB(_) => RgbModel
  }

  function IsHsl(c: Color): (b: bool)
    ensures b <==> Tag(c) == HslModel
  {
    match c
    case HSL(_) => true
    case _ => false
  }

  function IsHsv(c: Color): (b: bool)
    ensures b <==> Tag(c) == HsvModel
  {
    match c
    case HSV(_) => true
    case _ => false
  }

  function IsRgb(c: Color): (b: bool)
    ensures b <==> Tag(c) == RgbModel
  {
    match c
    case RGB(_) => true
    case _ => false
  }

  /** Exactly one tag predicate holds of any colour. */
  lemma ExactlyOneTag(c: Color)
    ensures IsHsl(c) || IsHsv(c) || IsRgb(c)
    ensures !(IsHsl(c) && IsHsv(c)) && !(IsHsl(c) && IsRgb(c)) && !(IsHsv(c) && IsRgb(c))
  {
  }

  /** `Color::new_hsl`: `HSL::new`, clamping included, then wrapped. */
  function NewHsl(hue: real, saturation: real, lightness: real): (c: Color)
    ensures IsHsl(c) && Hsl.InRange(c.hsl)
    ensures c.hsl == Hsl.New(hue, saturation, lightness)
  {
    HSL(Hsl.New(hue, saturation, lightness))
  }

  /** `Color::new_hsv`. */
  function NewHsv(hue: real, saturation: real, value: real): (c: Color)
    ensures IsHsv(c) && Hsv.InRange(c.hsv)
    ensures c.hsv == Hsv.New(hue, saturation, value)
  {
    HSV(Hsv.New(hue, saturation, value))
  }

  /** `Color::new_rgb`. */
  function NewRgb(red: Base.U8, green: Base.U8, blue: Base.U8): (c: Color)
    ensures IsRgb(c) && c.rgb == Rgb.New(red, green, blue)
  {
    RGB(Rgb.New(red, green, blue))
  }

  /** `From<HSL> for Color`. */
  function FromHsl(h: Hsl.HSL): (c: Color)
    ensures IsHsl(c) && !IsHsv(c) && !IsRgb(c) && c.hsl == h
  {
    HSL(h)
  }

  /** `From<HSV> for Color`. */
  function FromHsv(v: Hsv.HSV): (c: Color)
    ensures IsHsv(c) && !IsHsl(c) && !IsRgb(c) && c.hsv == v
  {
    HSV(v)
  }

  /** `From<RGB> for Color`. */
  function FromRgb(x: Rgb.RGB): (c: Color)
    ensures IsRgb(c) && !IsHsl(c) && !IsHsv(c) && c.rgb == x
  {
    RGB(x)
  }

  lemma ConstructorExamples()
    ensures IsHsl(NewHsl(120.0, 0.5, 1.0)) && NewHsl(120.0, 0.5, 1.0).hsl == Hsl.HSL(120.0, 0.5, 1.0)
    ensures IsHsv(NewHsv(120.0, 0.5, 1.0))
    ensures IsRgb(NewRgb(255, 42, 90))
  {
  }
}
