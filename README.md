# color-operators, modelled in Dafny

This project models the numeric core of the Rust crate `color-operators`. The crate has three colour models:

- `RGB`: three `u8` channels.
- `HSL`: hue, saturation, lightness, all `f64`.
- `HSV`: hue, saturation, value, all `f64`.

It also has the `Color` tagged union over the three. The model covers:

- the records and their clamping constructors;
- the named-component accessors `get`;
- the lossless tuple, vector and array conversions;
- hexadecimal text for `RGB`;
- channel-wise subtraction;
- the "bleed" blend of `rotate_rgb`;
- `rotate_hue`;
- exact and cross-model equality;
- the dispatch of every `Color` operator.

Arithmetic on the cylindrical models goes through RGB: both operands are converted to RGB, the RGB operator runs, and the result is converted back. An operand of another model is first converted into the receiving model. For `Color`, the result always carries the left operand's tag.

The floating-point conversion formulas between the models (`HSL <-> RGB`, `HSL <-> HSV`) are not modelled. They are four functions held in a `Formulas` value that every converting operation takes as a parameter, so every result holds for any formulas. Properties that need the formulas to be lossless are stated under the hypotheses `HslRoundTrips`, `HsvRoundTrips` and `HsvOfHslKeepsRgb` (together, `Lossless`).

Modules, one file each:

- `Base`: byte types, `Option`, `Result` and the accessor's error message.
- `Hex`: a stand-in for the `hex` crate, plus the `{:X?}` rendering.
- `Rgb`
- `Cylindrical`: the clamps and hue arithmetic shared by HSL and HSV.
- `Hsl`
- `Hsv`
- `Formulas`
- `Colors`: the `Color` union, its constructors and tag predicates.
- `RgbMixed`, `HslMixed` and `HsvMixed`: the operators whose other operand is another model or a `Color`.
- `ColorOps`: the `Color` operators.

A panic in the source becomes a precondition: a `u8` underflow or overflow, or an index past the end of a vector. The two panics of `RGB::from_hex_string` are the exception. Its `unwrap` of the decoder and its indexing of a short byte vector become `Err` results instead.

The documentation example of `to_hex_string` (src/rgb/mod.rs:168-178) shows only channels of 16 or more. For a smaller channel, `{:X?}` writes a single digit, and the model follows the code; see Findings.

## Model

| member | source | states |
|---|---|---|
| Hex.Digit | src/rgb/mod.rs:180-183 | the digit emitted for a nibble reads back as that nibble |
| Hex.DigitValue | src/rgb/mod.rs:159-165 | a character is a hex digit (either case) exactly when it has a value, and that value is below 16 |
| Hex.Render | src/rgb/mod.rs:180-183 | `{:X?}` of a byte: one upper-case digit below 16, two otherwise, whose values are the byte's nibbles |
| Hex.RenderAll | src/rgb/mod.rs:180-183 | the concatenated rendering is between one and two digits per byte, two per byte exactly when every byte is at least 16 |
| Hex.RenderAllAppend | src/rgb/mod.rs:180-183 | rendering a concatenation of bytes is the concatenation of the renderings |
| Hex.Encode | src/rgb/mod.rs:180-183 | the padded rendering has exactly two upper-case digits per byte |
| Hex.EncodeAt | src/rgb/mod.rs:180-183 | digits 2k and 2k+1 of the padded rendering are the high and low nibble of byte k |
| Hex.Decode | src/rgb/mod.rs:159-165 | odd length is an error; otherwise decoding succeeds iff every character is a hex digit, giving one byte per digit pair with those digit values |
| Hex.DecodeFrom | src/rgb/mod.rs:159-165 | decoding from position i succeeds iff all remaining characters are hex digits, with the pointwise byte values |
| Hex.DecodeEncode | src/rgb/mod.rs:159-183 | decoding the padded rendering gives the bytes back |
| Rgb.New | src/rgb/mod.rs:66-71 | the channels are stored as given |
| Rgb.Get | src/rgb/mod.rs:82-93 | `red`, `green`, `blue` give that channel; any other name is an error carrying the library's message |
| Rgb.GetDetermines | src/rgb/mod.rs:82-93 | the three named channels determine the colour |
| Rgb.Eq | src/rgb/equality.rs:22-27 | equal iff all three channels are equal |
| Rgb.EqIsEquivalence | src/rgb/equality.rs:10-27 | the comparison is reflexive, symmetric and transitive |
| Rgb.Sub | src/rgb/subtract.rs:29-34 | each channel of the difference plus the right operand's gives the left's; no channel grows |
| Rgb.SubSelf | src/rgb/subtract.rs:29-34 | `x - x` is black |
| Rgb.SubBlack | src/rgb/subtract.rs:29-34 | subtracting black changes nothing |
| Rgb.SubExample | src/rgb/subtract.rs:17-34 | (155,0,0) - (100,0,0) = (55,0,0) |
| Rgb.Add | src/color/add.rs:47-49 | channel-wise sum (assumed behaviour; see Left out) |
| Rgb.SubUndoesAdd | src/rgb/subtract.rs:29-34 | subtraction undoes addition |
| Rgb.BleedChannel | src/rgb/mod.rs:216-222 | the `u16` sum with its `as u8` casts equals the bleed rule for byte operands |
| Rgb.ZipBleed | src/rgb/mod.rs:212-225 | zip-and-map has the shorter input's length, and each element is the bleed of the paired elements |
| Rgb.RotateRgb | src/rgb/mod.rs:212-225 | every channel is the bleed of the two channels: the sum, less 255 when it exceeds 255 |
| Rgb.BleedIsNotModulo256 | src/rgb/mod.rs:197-225 | an overflowing bleed lies in 1..255, is one more than the modulo-256 wrap, and agrees with the sum modulo 255 |
| Rgb.RotateRgbCommutes | src/rgb/mod.rs:212-225 | the blend commutes |
| Rgb.RotateRgbBlackIdentity | src/rgb/mod.rs:212-225 | black is the blend's identity on both sides |
| Rgb.RotateRgbExamples | src/rgb/mod.rs:197-225 | (25,0,0) with (0,0,25) gives (25,0,25); (250,0,0) with (50,0,0) gives (45,0,0) |
| Rgb.FromHexString | src/rgb/mod.rs:159-165 | succeeds iff the text decodes and has at least six digits; the colour is the first three decoded bytes |
| Rgb.ToHexString | src/rgb/mod.rs:180-183 | as written: the `{:X?}` renderings of red, green and blue, concatenated; 3 to 6 upper-case digits, 6 exactly when every channel is at least 16 |
| Rgb.ToHexStringPadded | src/rgb/mod.rs:180-183 | corrected: six upper-case digits that `FromHexString` reads back to the same colour |
| Rgb.HexRenderingsAgree | src/rgb/mod.rs:180-183 | both renderings agree when every channel is at least 16 |
| Rgb.HexUnpaddedCounterexample | src/rgb/mod.rs:159-183 | (10,0,5) renders as "A05", which does not decode (odd length) |
| Rgb.FromHexExample | src/rgb/mod.rs:150-165 | "ABCDEF" decodes to (171,205,239) |
| Rgb.ToHexExample | src/rgb/mod.rs:170-183 | white renders as "FFFFFF" |
| Rgb.FromVector | src/rgb/convert_vector.rs:24-29 | the colour is elements 0, 1, 2 of the vector; extra elements are ignored |
| Rgb.ToVector | src/rgb/convert_vector.rs:47-49 | the vector is red, green, blue |
| Rgb.ToWideVector | src/rgb/convert_vector.rs:69-74 | the `u16` vector holds the same three values, all at most 255 |
| Rgb.VectorRoundTrip | src/rgb/convert_vector.rs:24-49 | colour to vector to colour is the identity |
| Rgb.VectorExamples | src/rgb/convert_vector.rs:12-74 | `[255, 42, 90]` gives green 42, and the colour gives that vector back, narrow and wide |
| Rgb.FromArray | src/rgb/convert_array.rs:21-26 | the colour is the three array elements in order |
| Rgb.ToArray | src/rgb/convert_array.rs:44-46 | the array is red, green, blue |
| Rgb.ArrayRoundTrips | src/rgb/convert_array.rs:21-46 | array and colour convert into each other losslessly in both directions |
| Rgb.FromTuple | src/rgb/convert_tuple.rs:21-24 | the colour's tuple is the given tuple |
| Rgb.ToTuple | src/rgb/convert_tuple.rs:42-44 | the tuple is red, green, blue |
| Rgb.TupleRoundTrips | src/rgb/convert_tuple.rs:21-44 | tuple and colour convert into each other losslessly in both directions |
| Rgb.ArrayTupleExamples | src/rgb/convert_array.rs:12-46 | the documented `[255, 42, 90]` and `(255, 42, 90)` examples |
| Cylindrical.Clamp | src/hsl/mod.rs:69-71 | `x.min(hi).max(lo)` lies in the range, equals x inside it, and is the nearest bound outside |
| Cylindrical.ClampIdempotent | src/hsl/mod.rs:69-71 | clamping twice is clamping once |
| Cylindrical.RoundHalfAway | src/hsl/mod.rs:207 | `f64::round` is within one half of its argument, and for a non-negative argument the argument lies strictly below the result plus one half (half-way cases round up) |
| Cylindrical.ReflectedHue | src/hsl/mod.rs:197-210 | as written: a shifted hue up to 360 is kept; a larger one is its distance to the nearest whole turn, in 0..180, naming either the shifted angle or its mirror image |
| Cylindrical.WrappedHue | src/hsl/mod.rs:193-213 | corrected: the result is in 0..360, is the same angle as hue + amount, and agrees with the as-written rotation whenever that stays in range |
| Cylindrical.RotationExamples | src/hsl/mod.rs:166-192 | 120 turned by 90 is 210 and by -180 is 300, in both versions |
| Cylindrical.ReflectionCounterexample | src/hsl/mod.rs:205-210 | 300 turned by 300: 120 as written, 240 corrected |
| Cylindrical.NegativeHueCounterexample | src/hsl/mod.rs:201-209 | 0 turned by -400: -40 as written, 320 corrected |
| Hsl.New | src/hsl/mod.rs:65-73 | every component is clamped into its range (hue 0..360, others 0..1) |
| Hsl.NewKeepsInRange | src/hsl/mod.rs:65-73 | `new` keeps an in-range colour and is idempotent |
| Hsl.Get | src/hsl/mod.rs:84-95 | `hue`, `saturation`, `lightness` give that component; any other name is the library's error |
| Hsl.Eq | src/hsl/equality.rs:22-27 | equal iff all three components are exactly equal |
| Hsl.EqIsEquivalence | src/hsl/equality.rs:10-27 | the comparison is an equivalence |
| Hsl.RotatedAsWritten | src/hsl/mod.rs:193-213 | the value `rotate_hue` returns: saturation and lightness kept, hue by the reflection rule; equal to the corrected rotation while the shifted hue stays in 0..360 |
| Hsl.RotateHue | src/hsl/mod.rs:193-213 | as written, with mutable locals: the result is `RotatedAsWritten`; saturation and lightness kept, an overflowing hue ends in 0..180 |
| Hsl.RotateHueWrapped | src/hsl/mod.rs:193-213 | corrected: saturation and lightness kept, the hue in range and the same angle as hue + amount; in-range input stays in range |
| Hsl.FromTuple | src/hsl/convert_tuple.rs:21-27 | the clamps of `new`, applied to mutable locals; an in-range tuple is kept exactly |
| Hsl.ToTuple | src/hsl/convert_tuple.rs:45-47 | the tuple is hue, saturation, lightness |
| Hsl.FromVector | src/hsl/convert_vector.rs:21-26 | elements 0, 1, 2 with the clamps of `new` |
| Hsl.ToVector | src/hsl/convert_vector.rs:44-46 | the vector is hue, saturation, lightness |
| Hsl.FromArray | src/hsl/convert_array.rs:21-26 | the three elements with the clamps of `new` |
| Hsl.ToArray | src/hsl/convert_array.rs:43-45 | the array is hue, saturation, lightness |
| Hsl.ContainerRoundTrips | src/hsl/convert_vector.rs:21-46 | an in-range colour survives vector and array round trips |
| Hsl.ContainerExamples | src/hsl/convert_vector.rs:12-19 | the documented `[0.0, 1.0, 0.5823529411764706]` examples |
| Hsv.New | src/hsv/mod.rs:65-73 | every component is clamped into its range |
| Hsv.NewKeepsInRange | src/hsv/mod.rs:65-73 | `new` keeps an in-range colour and is idempotent |
| Hsv.Get | src/hsv/mod.rs:84-95 | `hue`, `saturation`, `value` give that component; any other name is the library's error |
| Hsv.Eq | src/hsv/equality.rs:22-27 | equal iff all three components are exactly equal |
| Hsv.EqIsEquivalence | src/hsv/equality.rs:10-27 | the comparison is an equivalence |
| Hsv.RotatedAsWritten | src/hsv/mod.rs:193-213 | the value `rotate_hue` returns: saturation and value kept, hue by the reflection rule; equal to the corrected rotation while the shifted hue stays in 0..360 |
| Hsv.RotateHue | src/hsv/mod.rs:193-213 | as written, with mutable locals: the result is `RotatedAsWritten`; saturation and value kept, an overflowing hue ends in 0..180 |
| Hsv.RotateHueWrapped | src/hsv/mod.rs:193-213 | corrected: saturation and value kept, the hue in range and the same angle as hue + amount |
| Hsv.FromTuple | src/hsv/convert_tuple.rs:21-27 | the clamps of `new`, applied to mutable locals; an in-range tuple is kept exactly |
| Hsv.ToTuple | src/hsv/convert_tuple.rs:45-47 | the tuple is hue, saturation, value |
| Hsv.FromVector | src/hsv/convert_vector.rs:21-26 | elements 0, 1, 2 with the clamps of `new` |
| Hsv.ToVector | src/hsv/convert_vector.rs:44-46 | the vector is hue, saturation, value |
| Hsv.FromArray | src/hsv/convert_array.rs:21-26 | the three elements with the clamps of `new` |
| Hsv.ToArray | src/hsv/convert_array.rs:44-46 | the array is hue, saturation, value |
| Hsv.ContainerRoundTrips | src/hsv/convert_vector.rs:21-46 | an in-range colour survives vector and array round trips |
| Hsv.ContainerExamples | src/hsv/convert_vector.rs:12-19 | the documented `[0.0, 1.0, 0.5823529411764706]` examples |
| Colors.IsHsl | src/color/mod.rs:141-146 | true exactly for the HSL tag |
| Colors.IsHsv | src/color/mod.rs:158-163 | true exactly for the HSV tag |
| Colors.IsRgb | src/color/mod.rs:175-180 | true exactly for the RGB tag |
| Colors.ExactlyOneTag | src/color/mod.rs:141-180 | exactly one tag predicate holds of every colour |
| Colors.NewHsl | src/color/mod.rs:59-64 | an HSL colour holding `HSL::new` of the components, in range |
| Colors.NewHsv | src/color/mod.rs:79-84 | an HSV colour holding `HSV::new` of the components, in range |
| Colors.NewRgb | src/color/mod.rs:99-104 | an RGB colour holding `RGB::new` of the channels |
| Colors.FromHsl | src/color/convert_hsl.rs:11-14 | tagged HSL only, payload unchanged |
| Colors.FromHsv | src/color/convert_hsv.rs:24-26 | tagged HSV only, payload unchanged |
| Colors.FromRgb | src/color/convert_rgb.rs:11-14 | tagged RGB only, payload unchanged |
| Colors.ConstructorExamples | src/color/mod.rs:131-180 | the documented `is_hsl`, `is_hsv`, `is_rgb` examples |
| RgbMixed.OfColor | src/rgb/convert_color.rs:9-15 | an RGB payload as is, an HSL or HSV payload through its conversion to RGB |
| RgbMixed.OfColorFromRgb | src/rgb/convert_color.rs:9-15 | converting a wrapped RGB back gives it unchanged |
| RgbMixed.SubHsl | src/rgb/subtract.rs:69-72 | the difference plus the HSL operand's RGB gives the left operand back |
| RgbMixed.SubHsv | src/rgb/subtract.rs:93-96 | the difference plus the HSV operand's RGB gives the left operand back |
| RgbMixed.SubColor | src/rgb/subtract.rs:42-48 | the same as subtracting the colour converted to RGB |
| RgbMixed.AddHsl | src/color/add.rs:47 | assumed: the sum minus the HSL operand's RGB gives the left operand back |
| RgbMixed.AddHsv | src/color/add.rs:48 | assumed: the sum minus the HSV operand's RGB gives the left operand back |
| RgbMixed.EqHsl | src/rgb/equality.rs:56-59 | equal iff the colour equals the HSL operand's RGB |
| RgbMixed.EqHsv | src/rgb/equality.rs:76-79 | equal iff the colour equals the HSV operand's RGB |
| RgbMixed.EqColor | src/rgb/equality.rs:33-39 | equal iff the colour equals the other colour converted to RGB |
| RgbMixed.RotateHue | src/rgb/mod.rs:188-194 | the result is the RGB of an HSL form with the same saturation and lightness and the hue by the reflection rule as written; it equals the corrected rotation while the shifted hue stays in 0..360; a zero turn under a lossless round trip gives the colour back |
| RgbMixed.RotateHueWrapped | src/rgb/mod.rs:188-194 | corrected: the RGB of an HSL form with the same saturation and lightness whose hue is in range at the rotated angle |
| RgbMixed.OwnConversions | src/rgb/subtract.rs:56-96 | under lossless formulas a colour equals its own HSL and HSV forms, and subtracting them leaves black |
| HslMixed.OfColor | src/hsl/convert_color.rs:9-15 | an HSL payload as is, others through their conversion to HSL |
| HslMixed.OfColorFromHsl | src/hsl/convert_color.rs:9-15 | converting a wrapped HSL back gives it unchanged |
| HslMixed.Add | src/hsl/add.rs:31-35 | under the HSL round trip, the sum's RGB is the RGB sum of the operands' RGB |
| HslMixed.Sub | src/hsl/subtract.rs:31-35 | under the HSL round trip, the difference's RGB plus the right operand's RGB is the left operand's RGB |
| HslMixed.AddCommutes | src/hsl/add.rs:31-35 | addition commutes, for any formulas |
| HslMixed.SubSelf | src/hsl/subtract.rs:31-35 | `x - x` is the HSL form of black, for any formulas |
| HslMixed.AddHsv | src/hsl/add.rs:72-75 | under the HSL round trip, the sum's RGB is the left RGB plus the HSV operand's RGB |
| HslMixed.AddRgb | src/hsl/add.rs:96-99 | under the HSL round trip, the sum's RGB is the left RGB plus the RGB operand |
| HslMixed.AddColor | src/hsl/add.rs:43-49 | the same as adding the colour converted to HSL |
| HslMixed.SubHsv | src/hsl/subtract.rs:72-75 | under the HSL round trip, the difference's RGB plus the HSV operand's RGB is the left RGB |
| HslMixed.SubRgb | src/hsl/subtract.rs:96-99 | under the HSL round trip, the difference's RGB plus the RGB operand is the left RGB |
| HslMixed.SubColor | src/hsl/subtract.rs:43-49 | the same as subtracting the colour converted to HSL |
| HslMixed.EqHsv | src/hsl/equality.rs:56-59 | equal iff the colour equals the HSV operand converted to HSL |
| HslMixed.EqRgb | src/hsl/equality.rs:76-79 | equal iff the colour equals the RGB operand converted to HSL |
| HslMixed.EqColor | src/hsl/equality.rs:33-39 | equal iff the colour equals the other colour converted to HSL |
| HslMixed.RotateRgb | src/hsl/mod.rs:218-223 | under the HSL round trip, the result's RGB is the blend of the operands' RGB |
| HslMixed.RotateRgbCommutes | src/hsl/mod.rs:218-223 | the blend commutes, for any formulas |
| HsvMixed.OfColor | src/hsv/convert_color.rs:9-15 | an HSV payload as is, others through their conversion to HSV |
| HsvMixed.OfColorFromHsv | src/hsv/convert_color.rs:9-15 | converting a wrapped HSV back gives it unchanged |
| HsvMixed.Add | src/hsv/add.rs:31-35 | under the HSV round trip, the sum's RGB is the RGB sum of the operands' RGB |
| HsvMixed.Sub | src/hsv/subtract.rs:31-35 | under the HSV round trip, the difference's RGB plus the right operand's RGB is the left operand's RGB |
| HsvMixed.AddCommutes | src/hsv/add.rs:31-35 | addition commutes, for any formulas |
| HsvMixed.SubSelf | src/hsv/subtract.rs:31-35 | `x - x` is the HSV form of black, for any formulas |
| HsvMixed.AddHsl | src/hsv/add.rs:72-75 | when HSL to HSV keeps the RGB, the sum's RGB is the left RGB plus the HSL operand's RGB |
| HsvMixed.AddRgb | src/hsv/add.rs:96-99 | under the HSV round trip, the sum's RGB is the left RGB plus the RGB operand |
| HsvMixed.AddColor | src/hsv/add.rs:43-49 | the same as adding the colour converted to HSV |
| HsvMixed.SubHsl | src/hsv/subtract.rs:72-75 | when HSL to HSV keeps the RGB, the difference's RGB plus the HSL operand's RGB is the left RGB |
| HsvMixed.SubRgb | src/hsv/subtract.rs:96-99 | under the HSV round trip, the difference's RGB plus the RGB operand is the left RGB |
| HsvMixed.SubColor | src/hsv/subtract.rs:43-49 | the same as subtracting the colour converted to HSV |
| HsvMixed.EqHsl | src/hsv/equality.rs:56-59 | equal iff the colour equals the HSL operand converted to HSV |
| HsvMixed.EqRgb | src/hsv/equality.rs:76-79 | equal iff the colour equals the RGB operand converted to HSV |
| HsvMixed.EqColor | src/hsv/equality.rs:33-39 | equal iff the colour equals the other colour converted to HSV |
| HsvMixed.RotateRgb | src/hsv/mod.rs:218-223 | under the HSV round trip, the result's RGB is the blend of the operands' RGB |
| HsvMixed.RotateRgbCommutes | src/hsv/mod.rs:218-223 | the blend commutes, for any formulas |
| ColorOps.Add | src/color/add.rs:37-51 | the sum keeps the left tag and is the left model's sum with the right operand converted into that model |
| ColorOps.Sub | src/color/subtract.rs:34-48 | the difference keeps the left tag and is the left model's difference with the right operand converted into that model |
| ColorOps.AddHsl | src/color/add.rs:59-65 | keeps the tag; the same as adding the HSL value wrapped as a colour |
| ColorOps.AddHsv | src/color/add.rs:73-79 | keeps the tag; the same as adding the HSV value wrapped as a colour |
| ColorOps.AddRgb | src/color/add.rs:87-93 | keeps the tag; the same as adding the RGB value wrapped as a colour |
| ColorOps.SubHsl | src/color/subtract.rs:71-77 | keeps the tag; the same as subtracting the HSL value wrapped as a colour |
| ColorOps.SubHsv | src/color/subtract.rs:100-106 | keeps the tag; the same as subtracting the HSV value wrapped as a colour |
| ColorOps.SubRgb | src/color/subtract.rs:128-134 | keeps the tag; the same as subtracting the RGB value wrapped as a colour |
| ColorOps.Eq | src/color/equality.rs:12-26 | equal iff the left payload equals the right operand converted into the left model |
| ColorOps.EqHsl | src/color/equality.rs:31-37 | the same as comparing with the HSL value wrapped as a colour |
| ColorOps.EqHsv | src/color/equality.rs:42-48 | the same as comparing with the HSV value wrapped as a colour |
| ColorOps.EqRgb | src/color/equality.rs:53-59 | the same as comparing with the RGB value wrapped as a colour |
| ColorOps.RotateHue | src/color/mod.rs:109-118 | keeps the tag; a cylindrical payload keeps saturation and lightness or value and its hue follows the reflection rule as written; an RGB payload rotates as `RgbMixed.RotateHue` |
| ColorOps.RotateHueWrapped | src/color/mod.rs:109-118 | corrected: keeps the tag; a cylindrical hue stays in range at the rotated angle, and the result equals `RotateHue` while the shifted hue stays in 0..360 |
| ColorOps.RotateHueCounterexample | src/color/mod.rs:109-118 | an HSL colour at hue 300 turned by 300 lands on 120 through the dispatch, 240 with the corrected rotation |
| ColorOps.RotateRgb | src/color/mod.rs:123-129 | keeps the tag; the blend in the left model with the other colour converted into it |
| ColorOps.ConversionsAgree | src/hsl/convert_color.rs:9-15 | under lossless formulas a colour denotes the same RGB whichever model it is converted into |
| ColorOps.AddInRgb | src/color/add.rs:37-51 | under lossless formulas, `Color + Color` is defined iff the RGB sum fits, and denotes the RGB sum, whatever the tags |
| ColorOps.SubInRgb | src/color/subtract.rs:34-48 | under lossless formulas, `Color - Color` is defined iff the RGB difference fits, and denotes the RGB difference, whatever the tags |
| ColorOps.RotateRgbInRgb | src/color/mod.rs:123-129 | under lossless formulas, `rotate_rgb` denotes the RGB blend, whatever the tags |
| ColorOps.EqSound | src/color/equality.rs:12-26 | under lossless formulas, equal colours denote the same RGB |
| ColorOps.EqNotSymmetric | src/color/equality.rs:12-26 | with lossy formulas there are colours x, y with x == y but not y == x |
| ColorOps.EqReflexive | src/color/equality.rs:10-26 | every colour equals itself |
| ColorOps.EqFromPayload | src/color/equality.rs:30-60 | `Color::from(h) == h`, `Color::from(v) == v` and `Color::from(x) == x` for every payload |
| ColorOps.SubExample | src/color/subtract.rs:111-134 | `Color::new_rgb(24, 0, 0) - RGB::new(24, 0, 0)` is RGB black |

## Left out

- The floating-point conversion formulas are left out (`src/hsl/convert_rgb.rs`, `src/rgb/convert_hsl.rs`, `src/hsv/convert_hsl.rs`, `src/hsl/convert_hsv.rs`). They are parameters, so their arithmetic, rounding and the round-trip drift at sector boundaries are not modelled. Properties that need them are stated under explicit round-trip hypotheses.
- `f64` is modelled as exact `real`. NaN, infinities and rounding of the hue arithmetic are not modelled.
- Rgb.Add: `src/rgb/add.rs` is not part of this model. The behaviour of `RGB + RGB` is assumed to be plain `u8` addition per channel, panicking on overflow in debug builds. Overflow is made a precondition. Callers such as `Color + Color` and `HSL + HSL` add arbitrary values, so they carry that precondition too.
- RgbMixed.AddHsl and RgbMixed.AddHsv are assumed to mirror `Sub<HSL>` and `Sub<HSV>` in `src/rgb/subtract.rs`.
- Rgb.Sub and Rgb.Add: the wrap-around of release builds is not modelled. Overflow is a precondition, matching the debug-build panic.
- Rgb.FromHexString returns `Err` where the source panics (`unwrap` of the decoder, or indexing fewer than three bytes).
- The `hex` crate is replaced by `Hex.Decode`/`Hex.Encode`. They read digits of either case and write upper-case digits, pairwise.
- JSON text (`from_json_string`, `to_json_string`, `convert_json_value.rs`) is left out as serialisation.
- `Display` is left out as formatting.
- The command-line examples are left out: they are I/O around the constructors.
- `HSL`/`HSV` `from_hex_string` and `to_hex_string` are left out: they are RGB's hex text composed with the unmodelled formulas.
- RgbMixed.RotateHue is modelled as a composition through the formula parameters. Its result is pinned down only up to those formulas.
- Rust arrays `[T; 3]` are sequences of length 3. Generic `Into<u8>`/`Into<f64>` arguments are the target types themselves.
- Nothing is updated in place: every source method takes `&self` or consumes `self`, so there is no mutable state beyond locals.

## Findings

| source | as written | input that shows it | evidently intended | confidence | as-written member | corrected member |
|---|---|---|---|---|---|---|
| src/rgb/mod.rs:180-183 | each channel is formatted with `{:X?}`, which writes no leading zero | RGB(10, 0, 5) renders as "A05", which `from_hex_string` cannot decode (odd length) | two upper-case digits per channel ("0A0005"), readable by `from_hex_string` | high, not executed | Rgb.HexUnpaddedCounterexample | Rgb.ToHexStringPadded |
| src/hsl/mod.rs:205-210 | a sum above 360 becomes `abs(sum - 360 * round(sum / 360))`, which reflects once the sum passes 540 (the same lines in src/hsv/mod.rs) | hue 300 rotated by 300 gives 120 | the same angle kept in 0..360: 240 | medium, not executed | Cylindrical.ReflectionCounterexample | Cylindrical.WrappedHue |
| src/hsl/mod.rs:201-209 | a negative amount gains 360 only once, and a sum below zero is kept as it is (the same lines in src/hsv/mod.rs) | hue 0 rotated by -400 gives -40, outside the hue range | 320 | high, not executed | Cylindrical.NegativeHueCounterexample | Cylindrical.WrappedHue |
