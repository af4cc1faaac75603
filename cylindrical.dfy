/** Arithmetic shared by the two hue-based models (`src/hsl/mod.rs` and
    `src/hsv/mod.rs` are identical here): the clamp applied by every
    constructor and the hue rotation of `rotate_hue`, both as the source
    writes it (`ReflectedHue`) and as it is evidently meant (`WrappedHue`). */
module Cylindrical {

  const MaxHue: real := 360.0

  function Min(x: real, y: real): real { if x <= y then x else y }

  function Max(x: real, y: real): real { if x >= y then x else y }

  function Abs(x: real): real { if x < 0.0 then -x else x }

  /** `r` is `x` pulled into `[lo, hi]`: kept when inside, else the
      nearer bound. */
  predicate Clamped(x: real, lo: real, hi: real, r: real)
  {
    && lo <= r <= hi
    && (lo <= x <= hi ==> r == x)
    && (x < lo ==> r == lo)
    && (x > hi ==> r == hi)
  }

  /** `x.min(hi).max(lo)` on finite values. */
  function Clamp(x: real, lo: real, hi: real): (r: real)
    requires lo <= hi
    ensures Clamped(x, lo, hi, r)
  {
    Max(Min(x, hi), lo)
  }

  function ClampHue(x: real): real { Clamp(x, 0.0, MaxHue) }

  function ClampUnit(x: real): real { Clamp(x, 0.0, 1.0) }

  predicate InHueRange(x: real) { 0.0 <= x <= MaxHue }

  predicate InUnitRange(x: real) { 0.0 <= x <= 1.0 }

  /** Clamping twice is clamping once. */
  lemma ClampIdempotent(x: real, lo: real, hi: real)
    requires lo <= hi
    ensures Clamp(Clamp(x, lo, hi), lo, hi) == Clamp(x, lo, hi)
  {
  }

  /** `f64::round`: to the nearest integer, half-way cases away from zero. */
  function RoundHalfAway(x: real): (n: int)
    ensures (n as real) - 0.5 <= x <= (n as real) + 0.5
    ensures x >= 0.0 ==> n >= 0 && x < (n as real) + 0.5
  {
    if x >= 0.0 then (x + 0.5).Floor else -((-x + 0.5).Floor)
  }

  /** The sum `rotate_hue` tests: a negative amount first gains 360 once. */
  function Shifted(hue: real, amount: real): real
  {
    hue + (if amount < 0.0 then amount + MaxHue else amount)
  }

  /** The new hue of `rotate_hue` as written: a sum up to 360 is kept as it
      is (no re-clamp), a larger one becomes its distance to the nearest
      multiple of 360: either that angle or its mirror image (a reflection,
      not a modulo). */
  function ReflectedHue(hue: real, amount: real): (r: real)
    ensures Shifted(hue, amount) <= MaxHue ==> r == Shifted(hue, amount)
    ensures Shifted(hue, amount) > MaxHue ==> 0.0 <= r <= MaxHue / 2.0
    ensures Shifted(hue, amount) > MaxHue ==>
      SameAngle(r, Shifted(hue, amount)) || SameAngle(-r, Shifted(hue, amount))
  {
    var sum := Shifted(hue, amount);
    if sum > MaxHue then
      var n := RoundHalfAway(sum / MaxHue);
      var q := n as real;
      assert q - 0.5 <= sum / MaxHue < q + 0.5;
      assert MaxHue * q - 180.0 <= sum < MaxHue * q + 180.0;
      WholeTurns(sum - MaxHue * q, sum, -n);
      Abs(sum - MaxHue * q)
    else sum
  }

  /** `x` is a whole number. */
  predicate IsWhole(x: real) { x.Floor as real == x }

  /** `a` and `b` are the same direction on the hue circle. */
  predicate SameAngle(a: real, b: real) { IsWhole((a - b) / MaxHue) }

  /** The evidently intended rotation: the result names the same angle as
      `hue + amount`, lies in `[0, 360]`, and agrees with the source
      whenever the source's sum already lies there. */
  function WrappedHue(hue: real, amount: real): (r: real)
    ensures InHueRange(r)
    ensures SameAngle(r, hue + amount)
    ensures InHueRange(Shifted(hue, amount)) ==> r == ReflectedHue(hue, amount)
  {
    var sum := Shifted(hue, amount);
    var extra: int := if amount < 0.0 then 1 else 0;
    assert sum == hue + amount + MaxHue * extra as real;
    if InHueRange(sum) then
      WholeTurns(sum, hue + amount, extra);
      sum
    else
      var turns := (sum / MaxHue).Floor;
      FloorTurns(sum, turns);
      WholeTurns(sum - MaxHue * turns as real, hue + amount, extra - turns);
      sum - MaxHue * turns as real
  }

  /** Adding whole turns keeps the angle. */
  lemma WholeTurns(a: real, b: real, n: int)
    requires a == b + MaxHue * n as real
    ensures SameAngle(a, b)
  {
    assert (a - b) / MaxHue == n as real;
  }

  /** Removing `floor(sum / 360)` turns lands in `[0, 360)`. */
  lemma FloorTurns(sum: real, turns: int)
    requires turns == (sum / MaxHue).Floor
    ensures 0.0 <= sum - MaxHue * turns as real < MaxHue
  {
    assert (turns as real) <= sum / MaxHue < (turns as real) + 1.0;
  }

  /** The two examples of the source's documentation hold either way. */
  lemma RotationExamples()
    ensures ReflectedHue(120.0, 90.0) == 210.0 && WrappedHue(120.0, 90.0) == 210.0
    ensures ReflectedHue(120.0, -180.0) == 300.0 && WrappedHue(120.0, -180.0) == 300.0
  {
  }

  /** As written, 300 turned by 300 lands on 120 instead of 240. */
  lemma ReflectionCounterexample()
    ensures ReflectedHue(300.0, 300.0) == 120.0
    ensures WrappedHue(300.0, 300.0) == 240.0
  {
    assert RoundHalfAway(600.0 / MaxHue) == 2;
    assert (600.0 / MaxHue).Floor == 1;
  }

  /** As written, an amount below -360 leaves the hue negative. */
  lemma NegativeHueCounterexample()
    ensures ReflectedHue(0.0, -400.0) == -40.0
    ensures WrappedHue(0.0, -400.0) == 320.0
  {
    assert (-40.0 / MaxHue).Floor == -1;
  }
}
