/** Hexadecimal text.  `Render` and `RenderAll` model Rust's `{:X?}`
    formatting of a `u8` (upper case, no zero padding).  `Decode` is a
    stand-in for the `hex` crate's `decode`: even length required, digits of
    either case, the first bad character reported with its index.  `Encode`
    is the two-digits-per-byte upper-case encoding that `Decode` inverts. */
module Hex {
  import opened Base

  datatype DecodeError = OddLength | InvalidHexCharacter(c: char, index: nat)

  /** Upper-case digit of a nibble. */
  function Digit(n: nat): (c: char)
    requires n < 16
    ensures DigitValue(c) == Some(n)
  {
    if n < 10 then ('0' as int + n) as char else ('A' as int + n - 10) as char
  }

  /** Value of one hexadecimal digit, either case, or None. */
  function DigitValue(c: char): (v: Option<nat>)
    ensures v.Some? ==> v.value < 16
    ensures v.Some? <==> ('0' <= c <= '9' || 'a' <= c <= 'f' || 'A' <= c <= 'F')
  {
    if '0' <= c <= '9' then Some(c as int - '0' as int)
    else if 'a' <= c <= 'f' then Some(c as int - 'a' as int + 10)
    else if 'A' <= c <= 'F' then Some(c as int - 'A' as int + 10)
    else None
  }

  predicate IsUpperDigit(c: char)
  {
    '0' <= c <= '9' || 'A' <= c <= 'F'
  }

  /** `format!("{:X?}", b)`: one digit below 16, two digits otherwise. */
  function Render(b: U8): (s: string)
    ensures |s| == (if b < 16 then 1 else 2)
    ensures forall k :: 0 <= k < |s| ==> IsUpperDigit(s[k])
    ensures b < 16 ==> DigitValue(s[0]) == Some(b)
    ensures b >= 16 ==> DigitValue(s[0]) == Some(b / 16) && DigitValue(s[1]) == Some(b % 16)
  {
    if b < 16 then [Digit(b)] else [Digit(b / 16), Digit(b % 16)]
  }

  /** `bytes.iter().map(|v| format!("{:X?}", v)).collect::<String>()`. */
  function RenderAll(bytes: seq<U8>): (s: string)
    ensures |bytes| <= |s| <= 2 * |bytes|
    ensures |s| == 2 * |bytes| <==> forall k :: 0 <= k < |bytes| ==> bytes[k] >= 16
    ensures forall k :: 0 <= k < |s| ==> IsUpperDigit(s[k])
  {
    if bytes == [] then "" else Render(bytes[0]) + RenderAll(bytes[1..])
  }

  /** Rendering a concatenation renders each part, one after the other. */
  lemma {:induction false} RenderAllAppend(a: seq<U8>, b: seq<U8>)
    ensures RenderAll(a + b) == RenderAll(a) + RenderAll(b)
    decreases |a|
  {
    if a != [] {
      assert (a + b)[0] == a[0] && (a + b)[1..] == a[1..] + b;
      RenderAllAppend(a[1..], b);
    } else {
      assert a + b == b;
    }
  }

  /** Two upper-case digits per byte. */
  function Encode(bytes: seq<U8>): (s: string)
    ensures |s| == 2 * |bytes|
    ensures forall k :: 0 <= k < |s| ==> IsUpperDigit(s[k])
  {
    if bytes == [] then "" else [Digit(bytes[0] / 16), Digit(bytes[0] % 16)] + Encode(bytes[1..])
  }

  /** The two digits of byte `k` sit at positions `2k` and `2k+1`. */
  lemma {:induction false} EncodeAt(bytes: seq<U8>, k: nat)
    requires k < |bytes|
    ensures DigitValue(Encode(bytes)[2 * k]) == Some(bytes[k] / 16)
    ensures DigitValue(Encode(bytes)[2 * k + 1]) == Some(bytes[k] % 16)
  {
    if k > 0 {
      EncodeAt(bytes[1..], k - 1);
      var rest := Encode(bytes[1..]);
      assert Encode(bytes) == [Digit(bytes[0] / 16), Digit(bytes[0] % 16)] + rest;
      assert Encode(bytes)[2 * k] == rest[2 * (k - 1)];
      assert Encode(bytes)[2 * k + 1] == rest[2 * (k - 1) + 1];
    }
  }

  /** Stand-in for `hex::decode`. */
  function Decode(s: string): (r: Result<seq<U8>, DecodeError>)
    ensures |s| % 2 == 1 ==> r == Err(OddLength)
    ensures |s| % 2 == 0 ==> (r.Ok? <==> forall k :: 0 <= k < |s| ==> DigitValue(s[k]).Some?)
    ensures r.Ok? ==> 2 * |r.value| == |s|
    ensures r.Ok? ==> forall k :: 0 <= k < |r.value| ==>
      DigitValue(s[2 * k]) == Some(r.value[k] / 16) && DigitValue(s[2 * k + 1]) == Some(r.value[k] % 16)
  {
    if |s| % 2 == 1 then Err(OddLength) else DecodeFrom(s, 0)
  }

  /** Decodes the pairs of `s` from index `i` on. */
  function DecodeFrom(s: string, i: nat): (r: Result<seq<U8>, DecodeError>)
    requires i <= |s| && (|s| - i) % 2 == 0
    ensures r.Ok? <==> forall k :: i <= k < |s| ==> DigitValue(s[k]).Some?
    ensures r.Ok? ==> 2 * |r.value| == |s| - i
    ensures r.Ok? ==> PairsDecodeTo(s, i, r.value)
    decreases |s| - i
  {
    if i == |s| then Ok([])
    else if DigitValue(s[i]).None? then Err(InvalidHexCharacter(s[i], i))
    else if DigitValue(s[i + 1]).None? then Err(InvalidHexCharacter(s[i + 1], i + 1))
    else
      var rest := DecodeFrom(s, i + 2);
      if rest.Err? then rest
      else
        var hi, lo := DigitValue(s[i]).value, DigitValue(s[i + 1]).value;
        PairsDecodeToCons(s, i, hi, lo, rest.value);
        Ok([16 * hi + lo] + rest.value)
  }

  /** Byte `k` of `bytes` is the digit pair at `i + 2k`. */
  predicate PairsDecodeTo(s: string, i: nat, bytes: seq<U8>)
    requires i + 2 * |bytes| <= |s|
  {
    forall k :: 0 <= k < |bytes| ==>
      DigitValue(s[i + 2 * k]) == Some(bytes[k] / 16) && DigitValue(s[i + 2 * k + 1]) == Some(bytes[k] % 16)
  }

  lemma PairsDecodeToCons(s: string, i: nat, hi: nat, lo: nat, rest: seq<U8>)
    requires i + 2 + 2 * |rest| <= |s| && hi < 16 && lo < 16
    requires DigitValue(s[i]) == Some(hi) && DigitValue(s[i + 1]) == Some(lo)
    requires PairsDecodeTo(s, i + 2, rest)
    ensures PairsDecodeTo(s, i, [16 * hi + lo] + rest)
  {
    var bytes := [16 * hi + lo] + rest;
    forall k | 0 <= k < |bytes|
      ensures DigitValue(s[i + 2 * k]) == Some(bytes[k] / 16) && DigitValue(s[i + 2 * k + 1]) == Some(bytes[k] % 16)
    {
      if k > 0 {
        assert bytes[k] == rest[k - 1] && i + 2 * k == (i + 2) + 2 * (k - 1);
      }
    }
  }

  /** Decoding undoes encoding. */
  lemma {:induction false} DecodeEncode(bytes: seq<U8>)
    ensures Decode(Encode(bytes)) == Ok(bytes)
  {
    var s := Encode(bytes);
    var r := Decode(s);
    assert r.Ok?;
    assert |r.value| == |bytes|;
    forall k | 0 <= k < |bytes| ensures r.value[k] == bytes[k] {
      EncodeAt(bytes, k);
      assert r.value[k] / 16 == bytes[k] / 16 && r.value[k] % 16 == bytes[k] % 16;
    }
    assert r.value == bytes;
  }
}
