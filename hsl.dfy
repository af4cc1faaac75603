/** The hue/saturation/lightness model (`src/hsl/mod.rs` and its tuple,
    vector, array and same-type equality files).  Components are `real`;
    ranges are not an invariant of the type (other paths build values
    without clamping), only a postcondition of the clamping constructors. */
module Hsl {
  import opened Base
  import opened Cylindrical

  datatype HSL = HSL(hue: real, saturation: real, lightness: real)

  predicate InRange(c: HSL)
  {
    InHueRange(c.hue) && InUnitRange(c.saturation) && InUnitRange(c.lightness)
  }

  /** `HSL::new`: hue clamped into [0, 360], the other two into [0, 1]. */
  function New(hue: real, saturation: real, lightness: real): (c: HSL)
    ensures InRange(c)
    ensures Clamped(hue, 0.0, MaxHue, c.hue)
    ensures Clamped(saturation, 0.0, 1.0, c.saturation)
    ensures Clamped(lightness, 0.0, 1.0, c.lightness)
  {
    HSL(ClampHue(hue), ClampUnit(saturation), ClampUnit(lightness))
  }

  /** An in-range colour is rebuilt exactly by `new`, and `new` is
      idempotent. */
  lemma NewKeepsInRange(c: HSL, hue: real, saturation: real, lightness: real)
    ensures InRange(c) ==> New(c.hue, c.saturation, c.lightness) == c
    ensures var d := New(hue, saturation, lightness);
            New(d.hue, d.saturation, d.lightness) == d
  {
  }

  /** `HSL::get`. */
  function Get(c: HSL, component: string): (r: Result<real, string>)
    ensures r.Ok? <==> component in {"hue", "saturation", "lightness"}
    ensures r.Err? ==> r.error == NoSuchComponent(component)
    ensures component == "hue" ==> r == Ok(c.hue)
    ensures component == "saturation" ==> r == Ok(c.saturation)
    ensures component == "lightness" ==> r == Ok(c.lightness)
  {
    match component
    case "hue" => Ok(c.hue)
    case "saturation" => Ok(c.saturation)
    case "lightness" => Ok(c.lightness)
    case _ => Err(NoSuchComponent(component))
  }

  /** `PartialEq for HSL`: exact comparison of the three fields. */
  function Eq(a: HSL, b: HSL): (r: bool)
    ensures r <==> a == b
  {
    !(a.hue != b.hue || a.saturation != b.saturation || a.lightness != b.lightness)
  }

  lemma EqIsEquivalence()
    ensures forall a: HSL :: Eq(a, a)
    ensures forall a: HSL, b: HSL :: Eq(a, b) == Eq(b, a)
    ensures forall a: HSL, b: HSL, c: HSL :: Eq(a, b) && Eq(b, c) ==> Eq(a, c)
  {
  }

  /** `rotate_hue` as written: a negative amount gains 360 once; a sum up
      to 360 is taken as it is, a larger one is reflected. */
  method RotateHue(c: HSL, amount: real) returns (r: HSL)
    ensures r == RotatedAsWritten(c, amount)
    ensures r.saturation == c.saturation && r.lightness == c.lightness
    ensures Shifted(c.hue, amount) > MaxHue ==> 0.0 <= r.hue <= MaxHue / 2.0
  {
    var turn := amount;
    var (hue, saturation, lightness) := ToTuple(c);
    if turn < 0.0 {
      turn := turn + MaxHue;
    }
    var sum := hue + turn;
    if sum > MaxHue {
      hue := Abs(sum - MaxHue * RoundHalfAway(sum / MaxHue) as real);
    } else {
      hue := sum;
    }
    r := HSL(hue, saturation, lightness);
  }

  /** The value `rotate_hue` returns, as written: only the hue moves, by
      the reflection rule, and it agrees with the intended rotation while
      the shifted hue stays within 0..360. */
  function RotatedAsWritten(c: HSL, amount: real): (r: HSL)
    ensures r.saturation == c.saturation && r.lightness == c.lightness
    ensures r.hue == ReflectedHue(c.hue, amount)
    ensures InHueRange(Shifted(c.hue, amount)) ==> r == RotateHueWrapped(c, amount)
  {
    HSL(ReflectedHue(c.hue, amount), c.saturation, c.lightness)
  }

  /** The evidently intended `rotate_hue`: the same angle, kept in range. */
  function RotateHueWrapped(c: HSL, amount: real): (r: HSL)
    ensures r.saturation == c.saturation && r.lightness == c.lightness
    ensures InHueRange(r.hue) && SameAngle(r.hue, c.hue + amount)
    ensures InRange(c) ==> InRange(r)
  {
    HSL(WrappedHue(c.hue, amount), c.saturation, c.lightness)
  }

  /** `From<(f64, f64, f64)> for HSL`: the same clamps as `new`, applied
      to mutable locals in turn. */
  method FromTuple(t: (real, real, real)) returns (c: HSL)
    ensures c == New(t.0, t.1, t.2)
    ensures InRange(HSL(t.0, t.1, t.2)) ==> ToTuple(c) == t
  {
    var (hue, saturation, lightness) := t;
    hue := Max(Min(hue, MaxHue), 0.0);
    saturation := Max(Min(saturation, 1.0), 0.0);
    lightness := Max(Min(lightness, 1.0), 0.0);
    c := HSL(hue, saturation, lightness);
  }

  /** `Into<(f64, f64, f64)> for HSL`. */
  function ToTuple(c: HSL): (t: (real, real, real))
    ensures t.0 == c.hue && t.1 == c.saturation && t.2 == c.lightness
  {
    (c.hue, c.saturation, c.lightness)
  }

  /** `From<Vec<f64>> for HSL`: indices 0, 1, 2 with the clamps of `new`;
      a shorter vector panics (hence the precondition). */
  function FromVector(v: seq<real>): (c: HSL)
    requires |v| >= 3
    ensures c == New(v[0], v[1], v[2])
  {
    HSL(Max(Min(v[0], MaxHue), 0.0), Max(Min(v[1], 1.0), 0.0), Max(Min(v[2], 1.0), 0.0))
  }

  /** `Into<Vec<f64>> for HSL`. */
  function ToVector(c: HSL): (v: seq<real>)
    ensures |v| == 3 && v[0] == c.hue && v[1] == c.saturation && v[2] == c.lightness
  {
    [c.hue, c.saturation, c.lightness]
  }

  /** `From<[f64; 3]> for HSL`, a Rust array modelled as a sequence of
      length 3. */
  function FromArray(a: seq<real>): (c: HSL)
    requires |a| == 3
    ensures c == New(a[0], a[1], a[2])
  {
    HSL(Max(Min(a[0], MaxHue), 0.0), Max(Min(a[1], 1.0), 0.0), Max(Min(a[2], 1.0), 0.0))
  }

  /** `Into<[f64; 3]> for HSL`. */
  function ToArray(c: HSL): (a: seq<real>)
    ensures |a| == 3 && a[0] == c.hue && a[1] == c.saturation && a[2] == c.lightness
  {
    [c.hue, c.saturation, c.lightness]
  }

  /** Containers round-trip an in-range colour exactly. */
  lemma ContainerRoundTrips(c: HSL)
    requires InRange(c)
    ensures FromVector(ToVector(c)) == c
    ensures FromArray(ToArray(c)) == c
  {
  }

  /** The documentation's container examples: `[0.0, 1.0, 0.5823529411764706]`
      as a vector and as an array, and `new` with those components. */
  lemma ContainerExamples()
    ensures Get(FromVector([0.0, 1.0, 0.5823529411764706]), "lightness") == Ok(0.5823529411764706)
    ensures Get(FromArray([0.0, 1.0, 0.5823529411764706]), "saturation") == Ok(1.0)
    ensures ToTuple(New(0.0, 1.0, 0.5823529411764706)) == (0.0, 1.0, 0.5823529411764706)
    ensures ToVector(New(0.0, 1.0, 0.5823529411764706))[2] == 0.5823529411764706
  {
  }
}
