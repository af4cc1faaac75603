/** The operators of the `Color` tagged union (`src/color/add.rs`,
    `src/color/subtract.rs`, `src/color/equality.rs`, and `rotate_hue` and
    `rotate_rgb` of `src/color/mod.rs`).  Every operator dispatches on the
    tags: the result always carries the LEFT operand's tag, and the right
    operand is converted into the left operand's model. */
module ColorOps {
  import Rgb
  import Hsl
  import Hsv
  import opened Formulas
  import Colors
  import RgbMixed
  import HslMixed
  import HsvMixed
  import Cylindrical

  /** `Color + Color` does not overflow a byte (in debug builds it would
      panic otherwise). */
  predicate AddDefined(f: Formulas, x: Colors.Color, y: Colors.Color)
  {
    match x
    case HSL(a) => HslMixed.AddFits(f, a, HslMixed.OfColor(f, y))
    case HSV(a) => HsvMixed.AddFits(f, a, HsvMixed.OfColor(f, y))
    case RGB(a) => Rgb.AddFits(a, RgbMixed.OfColor(f, y))
  }

  /** `Color - Color` does not underflow a byte. */
  predicate SubDefined(f: Formulas, x: Colors.Color, y: Colors.Color)
  {
    match x
    case HSL(a) => HslMixed.SubFits(f, a, HslMixed.OfColor(f, y))
    case HSV(a) => HsvMixed.SubFits(f, a, HsvMixed.OfColor(f, y))
    case RGB(a) => Rgb.SubFits(a, RgbMixed.OfColor(f, y))
  }

  /** `Add for Color`: the nine pairs of tags; the sum keeps the left tag
      and is the left model's sum with the right operand in that model. */
  function Add(f: Formulas, x: Colors.Color, y: Colors.Color): (r: Colors.Color)
    requires AddDefined(f, x, y)
    ensures Colors.Tag(r) == Colors.Tag(x)
    ensures x.HSL? ==> r.hsl == HslMixed.Add(f, x.hsl, HslMixed.OfColor(f, y))
    ensures x.HSV? ==> r.hsv == HsvMixed.Add(f, x.hsv, HsvMixed.OfColor(f, y))
    ensures x.RGB? ==> r.rgb == Rgb.Add(x.rgb, RgbMixed.OfColor(f, y))
  {
    match (x, y)
    case (HSL(a), HSL(b)) => Colors.HSL(HslMixed.Add(f, a, b))
    case (HSL(a), HSV(b)) => Colors.HSL(HslMixed.AddHsv(f, a, b))
    case (HSL(a), RGB(b)) => Colors.HSL(HslMixed.AddRgb(f, a, b))
    case (HSV(a), HSL(b)) => Colors.HSV(HsvMixed.AddHsl(f, a, b))
    case (HSV(a), HSV(b)) => Colors.HSV(HsvMixed.Add(f, a, b))
    case (HSV(a), RGB(b)) => Colors.HSV(HsvMixed.AddRgb(f, a, b))
    case (RGB(a), HSL(b)) => Colors.RGB(RgbMixed.AddHsl(f, a, b))
    case (RGB(a), HSV(b)) => Colors.RGB(RgbMixed.AddHsv(f, a, b))
    case (RGB(a), RGB(b)) => Colors.RGB(Rgb.Add(a, b))
  }

  /** `Sub for Color`: the nine pairs of tags, as for `Add`. */
  function Sub(f: Formulas, x: Colors.Color, y: Colors.Color): (r: Colors.Color)
    requires SubDefined(f, x, y)
    ensures Colors.Tag(r) == Colors.Tag(x)
    ensures x.HSL? ==> r.hsl == HslMixed.Sub(f, x.hsl, HslMixed.OfColor(f, y))
    ensures x.HSV? ==> r.hsv == HsvMixed.Sub(f, x.hsv, HsvMixed.OfColor(f, y))
    ensures x.RGB? ==> r.rgb == Rgb.Sub(x.rgb, RgbMixed.OfColor(f, y))
  {
    match (x, y)
    case (HSL(a), HSL(b)) => Colors.HSL(HslMixed.Sub(f, a, b))
    case (HSL(a), HSV(b)) => Colors.HSL(HslMixed.SubHsv(f, a, b))
    case (HSL(a), RGB(b)) => Colors.HSL(HslMixed.SubRgb(f, a, b))
    case (HSV(a), HSL(b)) => Colors.HSV(HsvMixed.SubHsl(f, a, b))
    case (HSV(a), HSV(b)) => Colors.HSV(HsvMixed.Sub(f, a, b))
    case (HSV(a), RGB(b)) => Colors.HSV(HsvMixed.SubRgb(f, a, b))
    case (RGB(a), HSL(b)) => Colors.RGB(RgbMixed.SubHsl(f, a, b))
    case (RGB(a), HSV(b)) => Colors.RGB(RgbMixed.SubHsv(f, a, b))
    case (RGB(a), RGB(b)) => Colors.RGB(Rgb.Sub(a, b))
  }

  /** `Add<HSL> for Color`: the same as adding `Color::from(h)`. */
  function AddHsl(f: Formulas, x: Colors.Color, h: Hsl.HSL): (r: Colors.Color)
    requires AddDefined(f, x, Colors.FromHsl(h))
    ensures Colors.Tag(r) == Colors.Tag(x) && r == Add(f, x, Colors.FromHsl(h))
  {
    match x
    case HSL(v) => Colors.HSL(HslMixed.Add(f, v, h))
    case HSV(v) => Colors.HSV(HsvMixed.AddHsl(f, v, h))
    case RGB(v) => Colors.RGB(RgbMixed.AddHsl(f, v, h))
  }

  /** `Add<HSV> for Color`. */
  function AddHsv(f: Formulas, x: Colors.Color, v: Hsv.HSV): (r: Colors.Color)
    requires AddDefined(f, x, Colors.FromHsv(v))
    ensures Colors.Tag(r) == Colors.Tag(x) && r == Add(f, x, Colors.FromHsv(v))
  {
    match x
    case HSL(a) => Colors.HSL(HslMixed.AddHsv(f, a, v))
    case HSV(a) => Colors.HSV(HsvMixed.Add(f, a, v))
    case RGB(a) => Colors.RGB(RgbMixed.AddHsv(f, a, v))
  }

  /** `Add<RGB> for Color`. */
  function AddRgb(f: Formulas, x: Colors.Color, c: Rgb.RGB): (r: Colors.Color)
    requires AddDefined(f, x, Colors.FromRgb(c))
    ensures Colors.Tag(r) == Colors.Tag(x) && r == Add(f, x, Colors.FromRgb(c))
  {
    match x
    case HSL(a) => Colors.HSL(HslMixed.AddRgb(f, a, c))
    case HSV(a) => Colors.HSV(HsvMixed.AddRgb(f, a, c))
    case RGB(a) => Colors.RGB(Rgb.Add(a, c))
  }

  /** `Sub<HSL> for Color`. */
  function SubHsl(f: Formulas, x: Colors.Color, h: Hsl.HSL): (r: Colors.Color)
    requires SubDefined(f, x, Colors.FromHsl(h))
    ensures Colors.Tag(r) == Colors.Tag(x) && r == Sub(f, x, Colors.FromHsl(h))
  {
    match x
    case HSL(v) => Colors.HSL(HslMixed.Sub(f, v, h))
    case HSV(v) => Colors.HSV(HsvMixed.SubHsl(f, v, h))
    case RGB(v) => Colors.RGB(RgbMixed.SubHsl(f, v, h))
  }

  /** `Sub<HSV> for Color`. */
  function SubHsv(f: Formulas, x: Colors.Color, v: Hsv.HSV): (r: Colors.Color)
    requires SubDefined(f, x, Colors.FromHsv(v))
    ensures Colors.Tag(r) == Colors.Tag(x) && r == Sub(f, x, Colors.FromHsv(v))
  {
    match x
    case HSL(a) => Colors.HSL(HslMixed.SubHsv(f, a, v))
    case HSV(a) => Colors.HSV(HsvMixed.Sub(f, a, v))
    case RGB(a) => Colors.RGB(RgbMixed.SubHsv(f, a, v))
  }

  /** `Sub<RGB> for Color`. */
  function SubRgb(f: Formulas, x: Colors.Color, c: Rgb.RGB): (r: Colors.Color)
    requires SubDefined(f, x, Colors.FromRgb(c))
    ensures Colors.Tag(r) == Colors.Tag(x) && r == Sub(f, x, Colors.FromRgb(c))
  {
    match x
    case HSL(a) => Colors.HSL(HslMixed.SubRgb(f, a, c))
    case HSV(a) => Colors.HSV(HsvMixed.SubRgb(f, a, c))
    case RGB(a) => Colors.RGB(Rgb.Sub(a, c))
  }

  /** `PartialEq for Color`: the right operand is converted into the LEFT
      operand's model and compared there, so the relation depends on the
      order of the operands. */
  function Eq(f: Formulas, x: Colors.Color, y: Colors.Color): (r: bool)
    ensures x.HSL? ==> (r <==> x.hsl == HslMixed.OfColor(f, y))
    ensures x.HSV? ==> (r <==> x.hsv == HsvMixed.OfColor(f, y))
    ensures x.RGB? ==> (r <==> x.rgb == RgbMixed.OfColor(f, y))
  {
    match (x, y)
    case (HSL(a), HSL(b)) => Hsl.Eq(a, b)
    case (HSL(a), HSV(b)) => HslMixed.EqHsv(f, a, b)
    case (HSL(a), RGB(b)) => HslMixed.EqRgb(f, a, b)
    case (HSV(a), HSL(b)) => HsvMixed.EqHsl(f, a, b)
    case (HSV(a), HSV(b)) => Hsv.Eq(a, b)
    case (HSV(a), RGB(b)) => HsvMixed.EqRgb(f, a, b)
    case (RGB(a), HSL(b)) => RgbMixed.EqHsl(f, a, b)
    case (RGB(a), HSV(b)) => RgbMixed.EqHsv(f, a, b)
    case (RGB(a), RGB(b)) => Rgb.Eq(a, b)
  }

  /** `PartialEq<HSL> for Color`: the payload compared with `h`. */
  function EqHsl(f: Formulas, x: Colors.Color, h: Hsl.HSL): (r: bool)
    ensures r == Eq(f, x, Colors.FromHsl(h))
  {
    match x
    case HSL(v) => Hsl.Eq(v, h)
    case HSV(v) => HsvMixed.EqHsl(f, v, h)
    case RGB(v) => RgbMixed.EqHsl(f, v, h)
  }

  /** `PartialEq<HSV> for Color`. */
  function EqHsv(f: Formulas, x: Colors.Color, v: Hsv.HSV): (r: bool)
    ensures r == Eq(f, x, Colors.FromHsv(v))
  {
    match x
    case HSL(a) => HslMixed.EqHsv(f, a, v)
    case HSV(a) => Hsv.Eq(a, v)
    case RGB(a) => RgbMixed.EqHsv(f, a, v)
  }

  /** `PartialEq<RGB> for Color`. */
  function EqRgb(f: Formulas, x: Colors.Color, c: Rgb.RGB): (r: bool)
    ensures r == Eq(f, x, Colors.FromRgb(c))
  {
    match x
    case HSL(a) => HslMixed.EqRgb(f, a, c)
    case HSV(a) => HsvMixed.EqRgb(f, a, c)
    case RGB(a) => Rgb.Eq(a, c)
  }

  /** `Color::rotate_hue`: the payload's own `rotate_hue`, tag kept.  A
      cylindrical payload keeps its saturation and lightness (or value) and
      its hue follows the reflection rule as written; an RGB payload takes
      the round trip through HSL. */
  function RotateHue(f: Formulas, x: Colors.Color, amount: real): (r: Colors.Color)
    ensures Colors.Tag(r) == Colors.Tag(x)
    ensures x.HSL? ==> (r.hsl.saturation == x.hsl.saturation && r.hsl.lightness == x.hsl.lightness &&
      r.hsl.hue == Cylindrical.ReflectedHue(x.hsl.hue, amount))
    ensures x.HSV? ==> (r.hsv.saturation == x.hsv.saturation && r.hsv.value == x.hsv.value &&
      r.hsv.hue == Cylindrical.ReflectedHue(x.hsv.hue, amount))
    ensures x.RGB? ==> r.rgb == RgbMixed.RotateHue(f, x.rgb, amount)
  {
    match x
    case HSL(v) => Colors.HSL(Hsl.RotatedAsWritten(v, amount))
    case HSV(v) => Colors.HSV(Hsv.RotatedAsWritten(v, amount))
    case RGB(v) => Colors.RGB(RgbMixed.RotateHue(f, v, amount))
  }

  /** The evidently intended `Color::rotate_hue`: the corrected rotation on
      every payload; a cylindrical hue stays in range at the rotated angle,
      and it agrees with the rotation as written while the shifted hue
      stays within 0..360. */
  function RotateHueWrapped(f: Formulas, x: Colors.Color, amount: real): (r: Colors.Color)
    ensures Colors.Tag(r) == Colors.Tag(x)
    ensures x.HSL? ==> (r.hsl.saturation == x.hsl.saturation && r.hsl.lightness == x.hsl.lightness &&
      Cylindrical.InHueRange(r.hsl.hue) && Cylindrical.SameAngle(r.hsl.hue, x.hsl.hue + amount))
    ensures x.HSV? ==> (r.hsv.saturation == x.hsv.saturation && r.hsv.value == x.hsv.value &&
      Cylindrical.InHueRange(r.hsv.hue) && Cylindrical.SameAngle(r.hsv.hue, x.hsv.hue + amount))
    ensures x.HSL? && Cylindrical.InHueRange(Cylindrical.Shifted(x.hsl.hue, amount)) ==> r == RotateHue(f, x, amount)
    ensures x.HSV? && Cylindrical.InHueRange(Cylindrical.Shifted(x.hsv.hue, amount)) ==> r == RotateHue(f, x, amount)
  {
    match x
    case HSL(v) => Colors.HSL(Hsl.RotateHueWrapped(v, amount))
    case HSV(v) => Colors.HSV(Hsv.RotateHueWrapped(v, amount))
    case RGB(v) => Colors.RGB(RgbMixed.RotateHueWrapped(f, v, amount))
  }

  /** The dispatch inherits the reflection: an HSL colour at hue 300 turned
      by 300 lands on 120, where the intended rotation gives 240. */
  lemma RotateHueCounterexample(f: Formulas)
    ensures RotateHue(f, Colors.NewHsl(300.0, 0.5, 1.0), 300.0).hsl.hue == 120.0
    ensures RotateHueWrapped(f, Colors.NewHsl(300.0, 0.5, 1.0), 300.0).hsl.hue == 240.0
  {
    Cylindrical.ReflectionCounterexample();
  }

  /** `Color::rotate_rgb`: the other colour is converted into the left
      model, then blended; the tag is kept. */
  function RotateRgb(f: Formulas, x: Colors.Color, y: Colors.Color): (r: Colors.Color)
    ensures Colors.Tag(r) == Colors.Tag(x)
    ensures x.HSL? ==> r.hsl == HslMixed.RotateRgb(f, x.hsl, HslMixed.OfColor(f, y))
    ensures x.HSV? ==> r.hsv == HsvMixed.RotateRgb(f, x.hsv, HsvMixed.OfColor(f, y))
    ensures x.RGB? ==> r.rgb == Rgb.RotateRgb(x.rgb, RgbMixed.OfColor(f, y))
  {
    match x
    case HSL(v) => Colors.HSL(HslMixed.RotateRgb(f, v, HslMixed.OfColor(f, y)))
    case HSV(v) => Colors.HSV(HsvMixed.RotateRgb(f, v, HsvMixed.OfColor(f, y)))
    case RGB(v) => Colors.RGB(Rgb.RotateRgb(v, RgbMixed.OfColor(f, y)))
  }

  /** With lossless formulas every operand denotes the same RGB in every
      model it can be converted into. */
  lemma ConversionsAgree(f: Formulas, y: Colors.Color)
    requires Lossless(f)
    ensures f.rgbOfHsl(HslMixed.OfColor(f, y)) == RgbMixed.OfColor(f, y)
    ensures f.RgbOfHsv(HsvMixed.OfColor(f, y)) == RgbMixed.OfColor(f, y)
  {
    match y
    case HSL(h) =>
      assert f.RgbOfHsv(f.hsvOfHsl(h)) == f.rgbOfHsl(h);
    case HSV(v) =>
      assert f.rgbOfHsl(f.hslOfRgb(f.RgbOfHsv(v))) == f.RgbOfHsv(v);
    case RGB(c) =>
      assert f.rgbOfHsl(f.hslOfRgb(c)) == c;
      assert f.RgbOfHsv(f.HsvOfRgb(c)) == c;
  }

  /** With lossless formulas, `Color + Color` is RGB addition whatever the
      tags: it is defined exactly when the RGB sum fits, and the sum
      denotes the RGB sum of the operands. */
  lemma AddInRgb(f: Formulas, x: Colors.Color, y: Colors.Color)
    requires Lossless(f)
    ensures AddDefined(f, x, y) <==> Rgb.AddFits(RgbMixed.OfColor(f, x), RgbMixed.OfColor(f, y))
    ensures AddDefined(f, x, y) ==>
      RgbMixed.OfColor(f, Add(f, x, y)) == Rgb.Add(RgbMixed.OfColor(f, x), RgbMixed.OfColor(f, y))
  {
    ConversionsAgree(f, y);
  }

  /** With lossless formulas, `Color - Color` is RGB subtraction whatever
      the tags. */
  lemma SubInRgb(f: Formulas, x: Colors.Color, y: Colors.Color)
    requires Lossless(f)
    ensures SubDefined(f, x, y) <==> Rgb.SubFits(RgbMixed.OfColor(f, x), RgbMixed.OfColor(f, y))
    ensures SubDefined(f, x, y) ==>
      RgbMixed.OfColor(f, Sub(f, x, y)) == Rgb.Sub(RgbMixed.OfColor(f, x), RgbMixed.OfColor(f, y))
  {
    ConversionsAgree(f, y);
    if SubDefined(f, x, y) {
      var r := Sub(f, x, y);
      var a := RgbMixed.OfColor(f, x);
      var b := RgbMixed.OfColor(f, y);
      assert Rgb.Add(RgbMixed.OfColor(f, r), b) == a;
      Rgb.SubUndoesAdd(RgbMixed.OfColor(f, r), b);
    }
  }

  /** With lossless formulas, `rotate_rgb` is the RGB blend whatever the
      tags. */
  lemma RotateRgbInRgb(f: Formulas, x: Colors.Color, y: Colors.Color)
    requires Lossless(f)
    ensures RgbMixed.OfColor(f, RotateRgb(f, x, y)) == Rgb.RotateRgb(RgbMixed.OfColor(f, x), RgbMixed.OfColor(f, y))
  {
    ConversionsAgree(f, y);
  }

  /** With lossless formulas, equal colours denote the same RGB. */
  lemma EqSound(f: Formulas, x: Colors.Color, y: Colors.Color)
    requires Lossless(f)
    ensures Eq(f, x, y) ==> RgbMixed.OfColor(f, x) == RgbMixed.OfColor(f, y)
  {
    ConversionsAgree(f, y);
  }

  /** With formulas that lose information the comparison is not
      symmetric: an HSL colour can equal an RGB colour that does not equal
      it back, because each side converts the other into its own model. */
  lemma EqNotSymmetric()
    ensures exists f: Formulas, x: Colors.Color, y: Colors.Color :: Eq(f, x, y) && !Eq(f, y, x)
  {
    var h := Hsl.HSL(0.0, 0.0, 0.0);
    var f: Formulas := Formulas(_ => h, _ => Rgb.Black, _ => Hsv.HSV(0.0, 0.0, 0.0), _ => h);
    var x := Colors.FromHsl(h);
    var y := Colors.FromRgb(Rgb.RGB(1, 0, 0));
    assert Eq(f, x, y) && !Eq(f, y, x);
  }

  /** Every colour equals itself, whatever the formulas. */
  lemma EqReflexive(f: Formulas, x: Colors.Color)
    ensures Eq(f, x, x)
  {
  }

  /** A colour built from a payload equals that payload, for each of the
      three payload types. */
  lemma EqFromPayload(f: Formulas, h: Hsl.HSL, v: Hsv.HSV, x: Rgb.RGB)
    ensures EqHsl(f, Colors.FromHsl(h), h)
    ensures EqHsv(f, Colors.FromHsv(v), v)
    ensures EqRgb(f, Colors.FromRgb(x), x)
  {
    EqReflexive(f, Colors.FromHsl(h));
    EqReflexive(f, Colors.FromHsv(v));
    EqReflexive(f, Colors.FromRgb(x));
  }

  /** `Color::new_rgb(24, 0, 0) - RGB::new(24, 0, 0)` is RGB black. */
  lemma SubExample(f: Formulas)
    ensures SubDefined(f, Colors.NewRgb(24, 0, 0), Colors.FromRgb(Rgb.RGB(24, 0, 0)))
    ensures SubRgb(f, Colors.NewRgb(24, 0, 0), Rgb.RGB(24, 0, 0)) == Colors.FromRgb(Rgb.Black)
  {
  }
}
