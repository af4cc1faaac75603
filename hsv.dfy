/** The hue/saturation/value model (`src/hsv/mod.rs` and its tuple,
    vector, array and same-type equality files).  Components are `real`;
    ranges are not an invariant of the type (other paths build values
    without clamping), only a postcondition of the clamping constructors. */
module Hsv {
  import opened Base
  import opened Cylindrical

  datatype HSV = HSV(hue: real, saturation: real, value: real)

  predicate InRange(c: HSV)
  {
    InHueRange(c.hue) && InUnitRange(c.saturation) && InUnitRange(c.value)
  }

  /** `HSV::new`: hue clamped into [0, 360], the other two into [0, 1]. */
  function New(hue: real, saturation: real, value: real): (c: HSV)
    ensures InRange(c)
    ensures Clamped(hue, 0.0, MaxHue, c.hue)
    ensures Clamped(saturation, 0.0, 1.0, c.saturation)
    ensures Clamped(value, 0.0, 1.0, c.value)
  {
    HSV(ClampHue(hue), ClampUnit(saturation), ClampUnit(value))
  }

  /** An in-range colour is rebuilt exactly by `new`, and `new` is
      idempotent. */
  lemma NewKeepsInRange(c: HSV, hue: real, saturation: real, value: real)
    ensures InRange(c) ==> New(c.hue, c.saturation, c.value) == c
    ensures var d := New(hue, saturation, value);
            New(d.hue, d.saturation, d.value) == d
  {
  }

  /** `HSV::get`. */
  function Get(c: HSV, component: string): (r: Result<real, string>)
    ensures r.Ok? <==> component in {"hue", "saturation", "value"}
    ensures r.Err? ==> r.error == NoSuchComponent(component)
    ensures component == "hue" ==> r == Ok(c.hue)
    ensures component == "saturation" ==> r == Ok(c.saturation)
    ensures component == "value" ==> r == Ok(c.value)
  {
    match component
    case "hue" => Ok(c.hue)
    case "saturation" => Ok(c.saturation)
    case "value" => Ok(c.value)
    case _ => Err(NoSuchComponent(component))
  }

  /** `PartialEq for HSV`: exact comparison of the three fields. */
  function Eq(a: HSV, b: HSV): (r: bool)
    ensures r <==> a == b
  {
    !(a.hue != b.hue || a.saturation != b.saturation || a.value != b.value)
  }

  lemma EqIsEquivalence()
    ensures forall a: HSV :: Eq(a, a)
    ensures forall a: HSV, b: HSV :: Eq(a, b) == Eq(b, a)
    ensures forall a: HSV, b: HSV, c: HSV :: Eq(a, b) && Eq(b, c) ==> Eq(a, c)
  {
  }

  /** `rotate_hue` as written: a negative amount gains 360 once; a sum up
      to 360 is taken as it is, a larger one is reflected. */
  method RotateHue(c: HSV, amount: real) returns (r: HSV)
    ensures r == RotatedAsWritten(c, amount)
    ensures r.saturation == c.saturation && r.value == c.value
    ensures Shifted(c.hue, amount) > MaxHue ==> 0.0 <= r.hue <= MaxHue / 2.0
  {
    var turn := amount;
    var (hue, saturation, value) := ToTuple(c);
    if turn < 0.0 {
      turn := turn + MaxHue;
    }
    var sum := hue + turn;
    if sum > MaxHue {
      hue := Abs(sum - MaxHue * RoundHalfAway(sum / MaxHue) as real);
    } else {
      hue := sum;
    }
    r := HSV(hue, saturation, value);
  }

  /** The value `rotate_hue` returns, as written: only the hue moves, by
      the reflection rule, and it agrees with the intended rotation while
      the shifted hue stays within 0..360. */
  function RotatedAsWritten(c: HSV, amount: real): (r: HSV)
    ensures r.saturation == c.saturation && r.value == c.value
    ensures r.hue == ReflectedHue(c.hue, amount)
    ensures InHueRange(Shifted(c.hue, amount)) ==> r == RotateHueWrapped(c, amount)
  {
    HSV(ReflectedHue(c.hue, amount), c.saturation, c.value)
  }

  /** The evidently intended `rotate_hue`: the same angle, kept in range. */
  function RotateHueWrapped(c: HSV, amount: real): (r: HSV)
    ensures r.saturation == c.saturation && r.value == c.value
    ensures InHueRange(r.hue) && SameAngle(r.hue, c.hue + amount)
    ensures InRange(c) ==> InRange(r)
  {
    HSV(WrappedHue(c.hue, amount), c.saturation, c.value)
  }

  /** `From<(f64, f64, f64)> for HSV`: the same clamps as `new`, applied
      to mutable locals in turn. */
  method FromTuple(t: (real, real, real)) returns (c: HSV)
    ensures c == New(t.0, t.1, t.2)
    ensures InRange(HSV(t.0, t.1, t.2)) ==> ToTuple(c) == t
  {
    var (hue, saturation, value) := t;
    hue := Max(Min(hue, MaxHue), 0.0);
    saturation := Max(Min(saturation, 1.0), 0.0);
    value := Max(Min(value, 1.0), 0.0);
    c := HSV(hue, saturation, value);
  }

  /** `Into<(f64, f64, f64)> for HSV`. */
  function ToTuple(c: HSV): (t: (real, real, real))
    ensures t.0 == c.hue && t.1 == c.saturation && t.2 == c.value
  {
    (c.hue, c.saturation, c.value)
  }

  /** `From<Vec<f64>> for HSV`: indices 0, 1, 2 with the clamps of `new`;
      a shorter vector panics (hence the precondition). */
  function FromVector(v: seq<real>): (c: HSV)
    requires |v| >= 3
    ensures c == New(v[0], v[1], v[2])
  {
    HSV(Max(Min(v[0], MaxHue), 0.0), Max(Min(v[1], 1.0), 0.0), Max(Min(v[2], 1.0), 0.0))
  }

  /** `Into<Vec<f64>> for HSV`. */
  function ToVector(c: HSV): (v: seq<real>)
    ensures |v| == 3 && v[0] == c.hue && v[1] == c.saturation && v[2] == c.value
  {
    [c.hue, c.saturation, c.value]
  }

  /** `From<[f64; 3]> for HSV`, a Rust array modelled as a sequence of
      length 3. */
  function FromArray(a: seq<real>): (c: HSV)
    requires |a| == 3
    ensures c == New(a[0], a[1], a[2])
  {
    HSV(Max(Min(a[0], MaxHue), 0.0), Max(Min(a[1], 1.0), 0.0), Max(Min(a[2], 1.0), 0.0))
  }

  /** `Into<[f64; 3]> for HSV`. */
  function ToArray(c: HSV): (a: seq<real>)
    ensures |a| == 3 && a[0] == c.hue && a[1] == c.saturation && a[2] == c.value
  {
    [c.hue, c.saturation, c.value]
  }

  /** Containers round-trip an in-range colour exactly. */
  lemma ContainerRoundTrips(c: HSV)
    requires InRange(c)
    ensures FromVector(ToVector(c)) == c
    ensures FromArray(ToArray(c)) == c
  {
  }

  /** The documentation's container examples: `[0.0, 1.0, 0.5823529411764706]`
      as a vector and as an array, and `new` with those components. */
  lemma ContainerExamples()
    ensures Get(FromVector([0.0, 1.0, 0.5823529411764706]), "value") == Ok(0.5823529411764706)
    ensures Get(FromArray([0.0, 1.0, 0.5823529411764706]), "saturation") == Ok(1.0)
    ensures ToTuple(New(0.0, 1.0, 0.5823529411764706)) == (0.0, 1.0, 0.5823529411764706)
    ensures ToVector(New(0.0, 1.0, 0.5823529411764706))[2] == 0.5823529411764706
  {
  }
}
