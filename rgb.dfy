/** The red/green/blue byte-channel model (`src/rgb`): the record, its
    accessor, channel-wise subtraction and addition, the "bleed" blend of
    `rotate_rgb`, hexadecimal text, field-wise equality and the lossless
    vector, array and tuple conversions. */
module Rgb {
  import opened Base
  import Hex

  datatype RGB = RGB(red: U8, green: U8, blue: U8)

  const Black := RGB(0, 0, 0)

  /** `RGB::new`: the channels are stored as given, nothing is clamped. */
  function New(red: U8, green: U8, blue: U8): (c: RGB)
    ensures c.red == red && c.green == green && c.blue == blue
    ensures ToTuple(c) == (red, green, blue)
  {
    RGB(red, green, blue)
  }

  /** `RGB::get`: a channel by name, or the library's error message. */
  function Get(c: RGB, component: string): (r: Result<U8, string>)
    ensures r.Ok? <==> component in {"red", "green", "blue"}
    ensures r.Err? ==> r.error == NoSuchComponent(component)
    ensures component == "red" ==> r == Ok(c.red)
    ensures component == "green" ==> r == Ok(c.green)
    ensures component == "blue" ==> r == Ok(c.blue)
  {
    match component
    case "red" => Ok(c.red)
    case "green" => Ok(c.green)
    case "blue" => Ok(c.blue)
    case _ => Err(NoSuchComponent(component))
  }

  /** The three named channels determine the colour. */
  lemma GetDetermines(a: RGB, b: RGB)
    requires Get(a, "red") == Get(b, "red")
    requires Get(a, "green") == Get(b, "green")
    requires Get(a, "blue") == Get(b, "blue")
    ensures a == b
  {
  }

  // ---------------------------------------------------------------- equality

  /** `PartialEq for RGB`: field-wise comparison. */
  function Eq(a: RGB, b: RGB): (r: bool)
    ensures r <==> a == b
  {
    !(a.red != b.red || a.green != b.green || a.blue != b.blue)
  }

  /** Field-wise equality is an equivalence, as the `Eq` marker promises. */
  lemma EqIsEquivalence()
    ensures forall a: RGB :: Eq(a, a)
    ensures forall a: RGB, b: RGB :: Eq(a, b) == Eq(b, a)
    ensures forall a: RGB, b: RGB, c: RGB :: Eq(a, b) && Eq(b, c) ==> Eq(a, c)
  {
  }

  // ------------------------------------------------------------- arithmetic

  /** No channel of `a - b` underflows a `u8`. */
  predicate SubFits(a: RGB, b: RGB)
  {
    b.red <= a.red && b.green <= a.green && b.blue <= a.blue
  }

  /** `Sub for RGB`: channel-wise `u8` subtraction, which panics on
      underflow in debug builds (hence the precondition). */
  function Sub(a: RGB, b: RGB): (r: RGB)
    requires SubFits(a, b)
    ensures r.red + b.red == a.red && r.green + b.green == a.green && r.blue + b.blue == a.blue
    ensures r.red <= a.red && r.green <= a.green && r.blue <= a.blue
  {
    RGB(a.red - b.red, a.green - b.green, a.blue - b.blue)
  }

  lemma SubSelf(a: RGB)
    ensures Sub(a, a) == Black
  {
  }

  lemma SubBlack(a: RGB)
    ensures Sub(a, Black) == a
  {
  }

  lemma SubExample()
    ensures Sub(RGB(155, 0, 0), RGB(100, 0, 0)) == RGB(55, 0, 0)
  {
  }

  /** No channel of `a + b` overflows a `u8`. */
  predicate AddFits(a: RGB, b: RGB)
  {
    a.red + b.red <= 255 && a.green + b.green <= 255 && a.blue + b.blue <= 255
  }

  /** `Add for RGB`: channel-wise `u8` addition that panics on overflow in
      debug builds (`src/rgb/add.rs` is not part of this model, so this
      behaviour of `RGB + RGB` is assumed). */
  function Add(a: RGB, b: RGB): (r: RGB)
    requires AddFits(a, b)
    ensures r.red == a.red + b.red && r.green == a.green + b.green && r.blue == a.blue + b.blue
  {
    RGB(a.red + b.red, a.green + b.green, a.blue + b.blue)
  }

  /** Subtraction undoes addition. */
  lemma SubUndoesAdd(a: RGB, b: RGB)
    requires AddFits(a, b)
    ensures SubFits(Add(a, b), b) && Sub(Add(a, b), b) == a
  {
  }

  // ------------------------------------------------------- rotate_rgb blend

  /** The bleed rule of `rotate_rgb` on one channel: a sum above 255 loses
      255 (not 256). */
  function Bleed(x: int, y: int): int
  {
    if x + y > 255 then x + y - 255 else x + y
  }

  /** The closure of `rotate_rgb`: `u16` sum, then `as u8` casts (which
      truncate modulo 256, written out). */
  function BleedChannel(left: U16, right: U16): (b: U8)
    requires left + right < 65536
    ensures left <= 255 && right <= 255 ==> b == Bleed(left, right)
  {
    var sum := left + right;
    if sum > 255 then (sum - 255) % 256 else sum % 256
  }

  /** `left.iter().zip(right.iter()).map(closure).collect()`. */
  function ZipBleed(left: seq<U16>, right: seq<U16>): (r: seq<U8>)
    requires forall i :: 0 <= i < |left| && i < |right| ==> left[i] <= 255 && right[i] <= 255
    ensures |r| == if |left| < |right| then |left| else |right|
    ensures forall i :: 0 <= i < |r| ==> r[i] == Bleed(left[i], right[i])
  {
    if left == [] || right == [] then []
    else [BleedChannel(left[0], right[0])] + ZipBleed(left[1..], right[1..])
  }

  /** `RGB::rotate_rgb`: widen both to `u16`, blend channel by channel. */
  function RotateRgb(a: RGB, b: RGB): (r: RGB)
    ensures r.red == Bleed(a.red, b.red)
    ensures r.green == Bleed(a.green, b.green)
    ensures r.blue == Bleed(a.blue, b.blue)
  {
    var left := ToWideVector(a);
    var right := ToWideVector(b);
    FromVector(ZipBleed(left, right))
  }

  /** The blend is a sum modulo 255 kept in 1..255 once it overflows; it is
      never the modulo-256 wrap: an overflowing channel is one more than
      that. */
  lemma {:induction false} BleedIsNotModulo256(x: U8, y: U8)
    requires x + y > 255
    ensures Bleed(x, y) == (x + y) % 256 + 1
    ensures 1 <= Bleed(x, y) <= 255
    ensures Bleed(x, y) % 255 == (x + y) % 255
  {
    assert (x + y) % 256 == x + y - 256;
    assert (x + y) % 255 == x + y - 255 || (x + y) % 255 == x + y - 510;
  }

  lemma RotateRgbCommutes(a: RGB, b: RGB)
    ensures RotateRgb(a, b) == RotateRgb(b, a)
  {
  }

  lemma RotateRgbBlackIdentity(a: RGB)
    ensures RotateRgb(a, Black) == a && RotateRgb(Black, a) == a
  {
  }

  lemma RotateRgbExamples()
    ensures RotateRgb(RGB(25, 0, 0), RGB(0, 0, 25)) == RGB(25, 0, 25)
    ensures RotateRgb(RGB(250, 0, 0), RGB(50, 0, 0)) == RGB(45, 0, 0)
  {
  }

  // ---------------------------------------------------------- hexadecimal

  datatype HexError = Undecodable(cause: Hex.DecodeError) | TooFewBytes(count: nat)

  /** `RGB::from_hex_string`: decode, then take the first three bytes.  The
      source unwraps the decode result and indexes the vector, so both
      failures are panics there; here they are `Err`. */
  function FromHexString(s: string): (r: Result<RGB, HexError>)
    ensures r.Ok? <==> Hex.Decode(s).Ok? && |s| >= 6
    ensures r.Ok? ==> ToVector(r.value) == Hex.Decode(s).value[..3]
  {
    match Hex.Decode(s)
    case Err(e) => Err(Undecodable(e))
    case Ok(bytes) => if |bytes| < 3 then Err(TooFewBytes(|bytes|)) else Ok(FromVector(bytes))
  }

  /** `RGB::to_hex_string` as written: each channel through `{:X?}`, which
      does not pad to two digits. */
  function ToHexString(c: RGB): (s: string)
    ensures s == Hex.Render(c.red) + Hex.Render(c.green) + Hex.Render(c.blue)
    ensures 3 <= |s| <= 6
    ensures |s| == 6 <==> c.red >= 16 && c.green >= 16 && c.blue >= 16
    ensures forall k :: 0 <= k < |s| ==> Hex.IsUpperDigit(s[k])
  {
    var v := ToVector(c);
    assert v[1..] == [c.green, c.blue] && v[1..][1..] == [c.blue] && v[1..][1..][1..] == [];
    assert Hex.RenderAll(v[1..][1..]) == Hex.Render(c.blue);
    assert Hex.RenderAll(v[1..]) == Hex.Render(c.green) + Hex.Render(c.blue);
    Hex.RenderAll(v)
  }

  /** The evidently intended rendering: two upper-case digits per channel,
      which `FromHexString` reads back. */
  function ToHexStringPadded(c: RGB): (s: string)
    ensures |s| == 6
    ensures forall k :: 0 <= k < |s| ==> Hex.IsUpperDigit(s[k])
    ensures FromHexString(s) == Ok(c)
  {
    Hex.DecodeEncode(ToVector(c));
    Hex.Encode(ToVector(c))
  }

  /** Both renderings agree exactly when every channel needs two digits. */
  lemma {:induction false} HexRenderingsAgree(c: RGB)
    requires c.red >= 16 && c.green >= 16 && c.blue >= 16
    ensures ToHexString(c) == ToHexStringPadded(c)
  {
    var v := ToVector(c);
    assert v[1..] == [c.green, c.blue] && v[1..][1..] == [c.blue] && v[1..][1..][1..] == [];
    assert Hex.RenderAll(v[1..][1..]) == Hex.Render(c.blue) == Hex.Encode(v[1..][1..]);
    assert Hex.RenderAll(v[1..]) == Hex.Render(c.green) + Hex.Render(c.blue) == Hex.Encode(v[1..]);
  }

  /** The unpadded rendering of a dark channel cannot be read back. */
  lemma HexUnpaddedCounterexample()
    ensures ToHexString(RGB(10, 0, 5)) == "A05"
    ensures FromHexString(ToHexString(RGB(10, 0, 5))) == Err(Undecodable(Hex.OddLength))
  {
    var v := ToVector(RGB(10, 0, 5));
    assert v[1..][1..][1..] == [];
    assert Hex.RenderAll(v) == Hex.Render(10) + (Hex.Render(0) + (Hex.Render(5) + ""));
  }

  /** The documentation's decoding example: "ABCDEF" is (171, 205, 239). */
  lemma FromHexExample()
    ensures FromHexString("ABCDEF") == Ok(RGB(171, 205, 239))
  {
    var d := Hex.Decode("ABCDEF");
    assert d.Ok? && |d.value| == 3;
    assert Hex.PairsDecodeTo("ABCDEF", 0, d.value);
    assert d.value[0] / 16 == 10 && d.value[0] % 16 == 11;
    assert d.value[1] / 16 == 12 && d.value[1] % 16 == 13;
    assert d.value[2] / 16 == 14 && d.value[2] % 16 == 15;
  }

  /** The documentation's rendering example: white is "FFFFFF". */
  lemma ToHexExample()
    ensures ToHexString(RGB(255, 255, 255)) == "FFFFFF"
  {
    var v := ToVector(RGB(255, 255, 255));
    assert v[1..][1..][1..] == [];
    assert Hex.RenderAll(v) == Hex.Render(255) + (Hex.Render(255) + (Hex.Render(255) + ""));
  }

  // --------------------------------------------- vectors, arrays, tuples

  /** `From<Vec<T>> for RGB`: indices 0, 1, 2; extra elements are ignored
      and a shorter vector panics (hence the precondition). */
  function FromVector(v: seq<U8>): (c: RGB)
    requires |v| >= 3
    ensures ToVector(c) == v[..3]
  {
    New(v[0], v[1], v[2])
  }

  /** `Into<Vec<u8>> for RGB`. */
  function ToVector(c: RGB): (v: seq<U8>)
    ensures |v| == 3
    ensures v[0] == c.red && v[1] == c.green && v[2] == c.blue
  {
    [c.red, c.green, c.blue]
  }

  /** `Into<Vec<u16>> for RGB`: the byte vector, widened. */
  function ToWideVector(c: RGB): (w: seq<U16>)
    ensures |w| == 3
    ensures forall i :: 0 <= i < 3 ==> w[i] <= 255 && w[i] == ToVector(c)[i]
  {
    var v := ToVector(c);
    seq(|v|, i requires 0 <= i < |v| => v[i] as U16)
  }

  lemma VectorRoundTrip(c: RGB)
    ensures FromVector(ToVector(c)) == c
  {
  }

  /** The documentation's vector examples: `vec![255, 42, 90]` and back. */
  lemma VectorExamples()
    ensures Get(FromVector([255, 42, 90]), "green") == Ok(42)
    ensures ToVector(New(255, 42, 90)) == [255, 42, 90]
    ensures ToWideVector(New(255, 42, 90)) == [255, 42, 90]
  {
  }

  /** `From<[u8; 3]> for RGB`, a Rust array modelled as a sequence of
      length 3. */
  function FromArray(a: seq<U8>): (c: RGB)
    requires |a| == 3
    ensures ToTuple(c) == (a[0], a[1], a[2])
  {
    RGB(a[0], a[1], a[2])
  }

  /** `Into<[u8; 3]> for RGB`. */
  function ToArray(c: RGB): (a: seq<U8>)
    ensures |a| == 3 && a[0] == c.red && a[1] == c.green && a[2] == c.blue
  {
    [c.red, c.green, c.blue]
  }

  lemma ArrayRoundTrips(c: RGB, a: seq<U8>)
    requires |a| == 3
    ensures FromArray(ToArray(c)) == c
    ensures ToArray(FromArray(a)) == a
  {
  }

  /** `From<(u8, u8, u8)> for RGB`. */
  function FromTuple(t: (U8, U8, U8)): (c: RGB)
    ensures ToTuple(c) == t
  {
    var (red, green, blue) := t;
    RGB(red, green, blue)
  }

  /** `Into<(u8, u8, u8)> for RGB`. */
  function ToTuple(c: RGB): (t: (U8, U8, U8))
    ensures t.0 == c.red && t.1 == c.green && t.2 == c.blue
  {
    (c.red, c.green, c.blue)
  }

  lemma TupleRoundTrips(c: RGB, t: (U8, U8, U8))
    ensures FromTuple(ToTuple(c)) == c
    ensures ToTuple(FromTuple(t)) == t
  {
  }

  /** The documentation's array and tuple examples. */
  lemma ArrayTupleExamples()
    ensures Get(FromArray([255, 42, 90]), "blue") == Ok(90)
    ensures ToArray(New(255, 42, 90))[2] == 90
    ensures Get(FromTuple((255, 42, 90)), "red") == Ok(255)
    ensures ToTuple(New(255, 42, 90)) == (255, 42, 90)
  {
  }
}
