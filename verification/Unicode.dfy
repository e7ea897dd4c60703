/** UTF-8 (section 3 of RFC 3629), and what the proofs need of any such encoding. */
module Unicode {
  import opened Basics

  function Utf8(c: char): (r: seq<byte>)
    ensures 1 <= |r| <= 4
  {
    var n := c as int;
    if n < 0x80 then [n as byte]
    else if n < 0x800 then [(0xC0 + n / 64) as byte, Tail(n)]
    else if n < 0x10000 then [(0xE0 + n / 4096) as byte, Tail(n / 64), Tail(n)]
    else [(0xF0 + n / 262144) as byte, Tail(n / 4096), Tail(n / 64), Tail(n)]
  }

  /** A continuation byte with the low six bits of `n`. */
  function Tail(n: int): (b: byte)
    requires n >= 0
    ensures IsTail(b) && b as int - 0x80 == n % 64
  {
    (0x80 + n % 64) as byte
  }

  predicate IsTail(b: byte) {
    0x80 <= b < 0xC0
  }

  predicate IsAsciiChar(c: char) {
    c as int < 0x80
  }

  /** A first byte that is no continuation byte, then continuation bytes only; ASCII as itself, the rest outside ASCII. */
  ghost predicate IsShaped(c: char, u: seq<byte>) {
    && u != [] && !IsTail(u[0]) && (forall i :: 1 <= i < |u| ==> IsTail(u[i]))
    && (if IsAsciiChar(c) then u == [c as int as byte] else |u| >= 2 && u[0] >= 0x80)
  }

  /** What makes an encoding readable from any position. */
  ghost predicate IsEncoding(enc: char -> seq<byte>) {
    && (forall c :: IsShaped(c, enc(c)))
    && (forall c, d :: enc(c) <= enc(d) ==> c == d)
  }

  lemma Utf8IsShaped(c: char)
    ensures IsShaped(c, Utf8(c))
  {
  }

  /** The code point of a character's bytes. */
  function CodePoint(u: seq<byte>): int {
    if |u| == 1 then u[0] as int
    else if |u| == 2 then (u[0] as int - 0xC0) * 64 + Low(u[1])
    else if |u| == 3 then ((u[0] as int - 0xE0) * 64 + Low(u[1])) * 64 + Low(u[2])
    else if |u| == 4 then (((u[0] as int - 0xF0) * 64 + Low(u[1])) * 64 + Low(u[2])) * 64 + Low(u[3])
    else 0
  }

  function Low(b: byte): int {
    b as int - 0x80
  }

  lemma CodePointOfUtf8(c: char)
    ensures CodePoint(Utf8(c)) == c as int
  {
    var n := c as int;
    assert n == n / 64 * 64 + n % 64;
    assert n / 64 == n / 4096 * 64 + n / 64 % 64;
    assert n / 4096 == n / 262144 * 64 + n / 4096 % 64;
  }

  lemma SameLength(c: char, d: char)
    requires Utf8(c)[0] == Utf8(d)[0]
    ensures |Utf8(c)| == |Utf8(d)|
  {
  }

  lemma Utf8IsPrefixFree(c: char, d: char)
    requires Utf8(c) <= Utf8(d)
    ensures c == d
  {
    SameLength(c, d);
    assert Utf8(c) == Utf8(d);
    CodePointOfUtf8(c);
    CodePointOfUtf8(d);
  }

  lemma Utf8IsEncoding()
    ensures IsEncoding(Utf8)
  {
    forall c ensures IsShaped(c, Utf8(c)) {
      Utf8IsShaped(c);
    }
    forall c, d | Utf8(c) <= Utf8(d) ensures c == d {
      Utf8IsPrefixFree(c, d);
    }
  }

  function Encode(s: string, enc: char -> seq<byte>): seq<byte> {
    if s == [] then [] else enc(s[0]) + Encode(s[1..], enc)
  }

  lemma EncodeCons(c: char, s: string, enc: char -> seq<byte>)
    ensures Encode([c] + s, enc) == enc(c) + Encode(s, enc)
  {
    assert ([c] + s)[1..] == s;
  }

  /** A character is recognised by its bytes, whatever follows. */
  lemma Recognised(c: char, d: char, rest: seq<byte>, enc: char -> seq<byte>)
    requires IsEncoding(enc) && enc(c) <= enc(d) + rest
    ensures c == d
  {
    PrefixesCompare(enc(c), enc(d), enc(d) + rest);
  }
}
