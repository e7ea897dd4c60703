/** Percent-encoding (section 2.1 of RFC 3986), on bytes. */
module Percent {
  import opened Basics

  type Bytes = seq<byte>

  const PERCENT: byte := 37
  const PLUS: byte := 43

  predicate IsDigitByte(b: byte) {
    48 <= b <= 57
  }

  /** The unreserved characters of section 2.3 of RFC 3986. */
  predicate Unreserved(b: byte) {
    || IsDigitByte(b) || 65 <= b <= 90 || 97 <= b <= 122
    || b == 45 || b == 46 || b == 95 || b == 126
  }

  /** One uppercase hexadecimal digit. */
  function HexDigit(n: byte): (r: byte)
    requires n < 16
    ensures HexValue(r) == Some(n)
  {
    if n < 10 then 48 + n else 55 + n
  }

  /** The value of a hexadecimal digit of either case. */
  function HexValue(b: byte): (r: Option<byte>)
    ensures r.Some? ==> r.value < 16
  {
    if 48 <= b <= 57 then Some(b - 48)
    else if 65 <= b <= 70 then Some(b - 55)
    else if 97 <= b <= 102 then Some(b - 87)
    else None
  }

  function EncodeByte(b: byte): Bytes {
    if Unreserved(b) then [b] else [PERCENT, HexDigit(b / 16), HexDigit(b % 16)]
  }

  function Encoded(s: Bytes): Bytes {
    if s == [] then [] else EncodeByte(s[0]) + Encoded(s[1..])
  }

  /** `urlencode`. */
  method UrlEncode(value: Bytes) returns (out: Bytes)
    ensures out == Encoded(value)
  {
    out := [];
    for i := 0 to |value|
      invariant out + Encoded(value[i..]) == Encoded(value)
    {
      EncodeStep(value, i, out);
      if Unreserved(value[i]) {
        out := out + [value[i]];
      } else {
        out := out + [PERCENT, HexDigit(value[i] / 16), HexDigit(value[i] % 16)];
      }
    }
    assert value[|value|..] == [];
  }

  lemma EncodeStep(value: Bytes, i: nat, out: Bytes)
    requires i < |value|
    ensures out + EncodeByte(value[i]) + Encoded(value[i + 1..]) == out + Encoded(value[i..])
  {
    assert value[i..][1..] == value[i + 1..];
  }

  /** `u8::from_str_radix(hex, 16)` on two bytes: a plus sign may stand before one digit. */
  function TwoHex(a: byte, b: byte): (r: Option<byte>)
    ensures r.Some? <==> HexValue(b).Some? && (HexValue(a).Some? || a == PLUS)
  {
    match HexValue(b)
    case None => None
    case Some(low) =>
      if a == PLUS then Some(low)
      else
        match HexValue(a)
        case None => None
        case Some(high) => Some(high * 16 + low)
  }

  /** The byte an escape at the front of `s` stands for. */
  function Escaped(s: Bytes): (r: Option<byte>) {
    if |s| >= 3 && s[0] == PERCENT then TwoHex(s[1], s[2]) else None
  }

  function Decoded(s: Bytes): Bytes {
    if s == [] then []
    else if Escaped(s).Some? then [Escaped(s).value] + Decoded(s[3..])
    else [s[0]] + Decoded(s[1..])
  }

  /** `percent_decode`, up to its final lossy conversion to text. */
  method PercentDecode(text: Bytes) returns (out: Bytes)
    ensures out == Decoded(text)
    ensures |out| <= |text|
  {
    out := [];
    var index := 0;
    while index < |text|
      invariant index <= |text| && |out| <= index
      invariant out + Decoded(text[index..]) == Decoded(text)
    {
      var escaped := Escaped(text[index..]);
      DecodeStep(text, index, out);
      if escaped.Some? {
        out := out + [escaped.value];
        index := index + 3;
      } else {
        out := out + [text[index]];
        index := index + 1;
      }
    }
  }

  lemma DecodeStep(text: Bytes, index: nat, out: Bytes)
    requires index < |text|
    ensures var e := Escaped(text[index..]);
            if e.Some? then index + 3 <= |text| && out + [e.value] + Decoded(text[index + 3..]) == out + Decoded(text[index..])
            else out + [text[index]] + Decoded(text[index + 1..]) == out + Decoded(text[index..])
  {
    var rest := text[index..];
    assert rest[1..] == text[index + 1..] && (|rest| >= 3 ==> rest[3..] == text[index + 3..]);
  }

  // ---------------------------------------------------------------------------
  // Round trips

  lemma DecodeFirst(b: byte, rest: Bytes)
    ensures Decoded(EncodeByte(b) + rest) == [b] + Decoded(rest)
  {
    var s := EncodeByte(b) + rest;
    if Unreserved(b) {
      assert s[0] == b && s[1..] == rest;
    } else {
      assert s[0] == PERCENT && s[1] == HexDigit(b / 16) && s[2] == HexDigit(b % 16) && s[3..] == rest;
      assert Escaped(s) == Some(b);
    }
  }

  /** Decoding an encoded text gives it back, for every byte string, whatever follows it. */
  lemma {:induction false} DecodeEncoded(s: Bytes, rest: Bytes)
    ensures Decoded(Encoded(s) + rest) == s + Decoded(rest)
  {
    if s == [] {
      assert Encoded(s) + rest == rest;
    } else {
      Assoc(EncodeByte(s[0]), Encoded(s[1..]), rest);
      DecodeFirst(s[0], Encoded(s[1..]) + rest);
      DecodeEncoded(s[1..], rest);
      Assoc([s[0]], s[1..], Decoded(rest));
      assert [s[0]] + s[1..] == s;
    }
  }

  lemma {:induction false} RoundTrip(s: Bytes)
    ensures Decoded(Encoded(s)) == s
  {
    DecodeEncoded(s, []);
    assert Encoded(s) + [] == Encoded(s) && s + Decoded([]) == s;
  }

  predicate IsLowerHex(b: byte) {
    97 <= b <= 102
  }

  predicate IsHex(b: byte) {
    IsUpperHex(b) || IsLowerHex(b)
  }

  /** The digits of either case, and nothing else, have a value. */
  lemma HexIsCaseless(b: byte)
    ensures HexValue(b).Some? <==> IsHex(b)
    ensures IsLowerHex(b) ==> HexValue(b) == HexValue(b - 32)
  {
  }

  /** An escape stands for its byte, in either case. */
  lemma EscapeDecodes(a: byte, b: byte, rest: Bytes)
    requires IsHex(a) && IsHex(b)
    ensures Decoded([PERCENT, a, b] + rest) == [HexValue(a).value * 16 + HexValue(b).value] + Decoded(rest)
  {
    assert ([PERCENT, a, b] + rest)[3..] == rest;
  }

  /** A byte that begins no escape stands for itself, a percent sign included. */
  lemma LoneByteDecodes(c: byte, rest: Bytes)
    requires c == PERCENT ==> |rest| < 2 || !(IsHex(rest[0]) || rest[0] == PLUS) || !IsHex(rest[1])
    ensures Decoded([c] + rest) == [c] + Decoded(rest)
  {
    var s := [c] + rest;
    assert s[1..] == rest;
    if |rest| >= 2 {
      HexIsCaseless(rest[0]);
      HexIsCaseless(rest[1]);
      assert s[1] == rest[0] && s[2] == rest[1];
    }
  }

  predicate IsUpperHex(b: byte) {
    IsDigitByte(b) || 65 <= b <= 70
  }

  /**
   Normalised percent-encoding (section 6.2.2 of RFC 3986): unreserved characters
   stand for themselves, every other byte is an uppercase triplet, and nothing
   else appears.
   */
  predicate IsNormal(t: Bytes) {
    t == []
    || (Unreserved(t[0]) && IsNormal(t[1..]))
    || (|t| >= 3 && t[0] == PERCENT && IsUpperHex(t[1]) && IsUpperHex(t[2]) && !Unreserved(TwoHex(t[1], t[2]).GetOr(0)) && IsNormal(t[3..]))
  }

  lemma {:induction false} EncodedIsNormal(s: Bytes)
    ensures IsNormal(Encoded(s))
  {
    if s != [] {
      EncodedIsNormal(s[1..]);
      var t := Encoded(s);
      var rest := Encoded(s[1..]);
      if Unreserved(s[0]) {
        assert t[0] == s[0] && t[1..] == rest;
      } else {
        assert t[1] == HexDigit(s[0] / 16) && t[2] == HexDigit(s[0] % 16) && t[3..] == rest;
      }
    }
  }

  lemma UpperHexPrints(a: byte, b: byte)
    requires IsUpperHex(a) && IsUpperHex(b)
    ensures var v := TwoHex(a, b); v.Some? && HexDigit(v.value / 16) == a && HexDigit(v.value % 16) == b
  {
    var high, low := HexValue(a).value, HexValue(b).value;
    assert (high * 16 + low) / 16 == high && (high * 16 + low) % 16 == low;
  }

  lemma {:induction false} EncodeDecoded(t: Bytes)
    requires IsNormal(t)
    ensures Encoded(Decoded(t)) == t
  {
    if t != [] {
      var d := Decoded(t);
      if Unreserved(t[0]) {
        EncodeDecoded(t[1..]);
        assert d[0] == t[0] && d[1..] == Decoded(t[1..]);
      } else {
        UpperHexPrints(t[1], t[2]);
        EncodeDecoded(t[3..]);
        assert d[0] == TwoHex(t[1], t[2]).value && d[1..] == Decoded(t[3..]);
      }
    }
  }

  /** A text survives decoding and encoding again exactly when it is normalised. */
  lemma {:induction false} NormalIffRoundTrip(t: Bytes)
    ensures Encoded(Decoded(t)) == t <==> IsNormal(t)
  {
    EncodedIsNormal(Decoded(t));
    if IsNormal(t) {
      EncodeDecoded(t);
    }
  }

  /** A normalised text holds unreserved characters and percent signs only. */
  lemma {:induction false} NormalAlphabet(t: Bytes)
    requires IsNormal(t)
    ensures forall i :: 0 <= i < |t| ==> Unreserved(t[i]) || t[i] == PERCENT
  {
    if t != [] {
      if Unreserved(t[0]) {
        NormalAlphabet(t[1..]);
        assert forall i :: 1 <= i < |t| ==> t[i] == t[1..][i - 1];
      } else {
        NormalAlphabet(t[3..]);
        assert forall i :: 3 <= i < |t| ==> t[i] == t[3..][i - 3];
      }
    }
  }
}
