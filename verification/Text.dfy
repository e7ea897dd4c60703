/**
 The pieces of the Rust string library the modelled code is written with, and the
 laws about splitting, trimming, joining and printing numbers that the proofs use.
 */
module Text {
  import opened Basics

  // ---------------------------------------------------------------------------
  // Character classes

  predicate IsDigit(c: char) {
    '0' <= c <= '9'
  }

  predicate IsLower(c: char) {
    'a' <= c <= 'z'
  }

  predicate IsUpper(c: char) {
    'A' <= c <= 'Z'
  }

  predicate IsColon(c: char) {
    c == ':'
  }

  predicate IsAlnum(c: char) {
    IsDigit(c) || IsLower(c) || IsUpper(c)
  }

  /** The Unicode `White_Space` property, which `trim` and `split_whitespace` use. */
  predicate IsWhite(c: char) {
    || '\U{0009}' <= c <= '\U{000D}' || c == ' ' || c == '\U{0085}' || c == '\U{00A0}' || c == '\U{1680}'
    || '\U{2000}' <= c <= '\U{200A}' || c == '\U{2028}' || c == '\U{2029}' || c == '\U{202F}' || c == '\U{205F}'
    || c == '\U{3000}'
  }

  function LowerChar(c: char): (r: char)
    ensures if IsUpper(c) then IsLower(r) && r as int - 'a' as int == c as int - 'A' as int else r == c
  {
    if IsUpper(c) then (c as int + 32) as char else c
  }

  /** `to_ascii_lowercase`. */
  function Lower(s: string): (r: string)
    ensures |r| == |s|
  {
    seq(|s|, i requires 0 <= i < |s| => LowerChar(s[i]))
  }

  // ---------------------------------------------------------------------------
  // Searching and splitting

  /** The first index holding a character of class `p`, or the length. */
  function Find(s: string, p: char -> bool): (k: nat)
    ensures k <= |s|
    ensures forall i :: 0 <= i < k ==> !p(s[i])
    ensures k < |s| ==> p(s[k])
  {
    if s == [] || p(s[0]) then 0 else 1 + Find(s[1..], p)
  }

  lemma {:induction false} FindAt(s: string, p: char -> bool, k: nat)
    requires k <= |s| && (forall i :: 0 <= i < k ==> !p(s[i])) && (k < |s| ==> p(s[k]))
    ensures Find(s, p) == k
  {
    if k > 0 {
      FindAt(s[1..], p, k - 1);
    }
  }

  /** `str::split` on a character class: never empty. */
  function Split(s: string, p: char -> bool): (r: seq<string>)
    ensures r != []
  {
    var k := Find(s, p);
    if k == |s| then [s] else [s[..k]] + Split(s[k + 1..], p)
  }

  lemma SplitAt(a: string, c: char, b: string, p: char -> bool)
    requires p(c) && forall x :: x in a ==> !p(x)
    ensures Split(a + [c] + b, p) == [a] + Split(b, p)
  {
    var s := a + [c] + b;
    FindAt(s, p, |a|);
    assert s[..|a|] == a && s[|a| + 1..] == b;
  }

  lemma SplitNone(a: string, p: char -> bool)
    requires forall x :: x in a ==> !p(x)
    ensures Split(a, p) == [a]
  {
    FindAt(a, p, |a|);
  }

  function Join(parts: seq<string>, sep: string): string {
    if parts == [] then [] else if |parts| == 1 then parts[0] else parts[0] + sep + Join(parts[1..], sep)
  }

  /** Every occurrence of one character replaced by a text. */
  function Replace(s: string, c: char, with: string): string {
    if s == [] then [] else (if s[0] == c then with else [s[0]]) + Replace(s[1..], c, with)
  }

  lemma {:induction false} ReplaceConcat(a: string, b: string, c: char, with: string)
    ensures Replace(a + b, c, with) == Replace(a, c, with) + Replace(b, c, with)
  {
    if a == [] {
      assert a + b == b;
    } else {
      assert (a + b)[1..] == a[1..] + b;
      ReplaceConcat(a[1..], b, c, with);
    }
  }

  predicate StartsWith(s: string, prefix: string) {
    |prefix| <= |s| && s[..|prefix|] == prefix
  }

  predicate EndsWith(s: string, suffix: string) {
    |suffix| <= |s| && s[|s| - |suffix|..] == suffix
  }

  function StripSuffix(s: string, suffix: string): string {
    if EndsWith(s, suffix) then s[..|s| - |suffix|] else s
  }

  /** The first occurrence of `sep`, as `split_once`. */
  function SplitOnce<T(==)>(s: seq<T>, sep: seq<T>): (r: Option<(seq<T>, seq<T>)>)
    requires sep != []
    ensures r.Some? ==> |r.value.1| < |s|
  {
    if |s| < |sep| then None
    else if s[..|sep|] == sep then Some(([], s[|sep|..]))
    else
      match SplitOnce(s[1..], sep)
      case None => None
      case Some(parts) => Some(([s[0]] + parts.0, parts.1))
  }

  /** The last occurrence of an element, as `rsplit_once`. */
  function RSplitOnce<T(==)>(s: seq<T>, c: T): Option<(seq<T>, seq<T>)> {
    if s == [] then None
    else if s[|s| - 1] == c then Some((s[..|s| - 1], []))
    else
      match RSplitOnce(s[..|s| - 1], c)
      case None => None
      case Some(parts) => Some((parts.0, parts.1 + [s[|s| - 1]]))
  }

  lemma {:induction false} SplitOnceAt<T>(a: seq<T>, sep: seq<T>, b: seq<T>)
    requires sep != [] && sep[0] !in a
    ensures SplitOnce(a + sep + b, sep) == Some((a, b))
  {
    var s := a + sep + b;
    if a == [] {
      assert s == sep + b && s[..|sep|] == sep && s[|sep|..] == b;
    } else {
      assert s[0] == a[0] && s[..|sep|][0] == a[0] && s[1..] == a[1..] + sep + b;
      SplitOnceAt(a[1..], sep, b);
      assert [a[0]] + a[1..] == a;
    }
  }

  lemma {:induction false} RSplitOnceAt<T>(a: seq<T>, c: T, b: seq<T>)
    requires c !in b
    ensures RSplitOnce(a + [c] + b, c) == Some((a, b))
  {
    var s := a + [c] + b;
    if b == [] {
      assert s == a + [c];
    } else {
      assert s[|s| - 1] == b[|b| - 1] && s[..|s| - 1] == a + [c] + b[..|b| - 1];
      RSplitOnceAt(a, c, b[..|b| - 1]);
      assert b[..|b| - 1] + [b[|b| - 1]] == b;
    }
  }

  // ---------------------------------------------------------------------------
  // Whitespace. The functions take the whitespace class as a parameter, and every
  // law below holds for any class.

  function TrimStart(s: string, w: char -> bool): (r: string)
    ensures |r| <= |s|
    ensures r != [] ==> !w(r[0])
  {
    if s == [] || !w(s[0]) then s else TrimStart(s[1..], w)
  }

  function TrimEnd(s: string, w: char -> bool): (r: string)
    ensures |r| <= |s|
    ensures r != [] ==> !w(r[|r| - 1])
  {
    if s == [] || !w(s[|s| - 1]) then s else TrimEnd(s[..|s| - 1], w)
  }

  function Trim(s: string, w: char -> bool): (r: string) {
    TrimEnd(TrimStart(s, w), w)
  }

  ghost predicate AllIn(s: string, w: char -> bool) {
    forall i :: 0 <= i < |s| ==> w(s[i])
  }

  ghost predicate NoneIn(s: string, w: char -> bool) {
    forall i :: 0 <= i < |s| ==> !w(s[i])
  }

  lemma {:induction false} TrimStartAt(pad: string, s: string, w: char -> bool)
    requires AllIn(pad, w) && (s == [] || !w(s[0]))
    ensures TrimStart(pad + s, w) == s
  {
    if pad == [] {
      assert pad + s == s;
    } else {
      assert (pad + s)[1..] == pad[1..] + s;
      TrimStartAt(pad[1..], s, w);
    }
  }

  lemma {:induction false} TrimEndAt(s: string, pad: string, w: char -> bool)
    requires AllIn(pad, w) && (s == [] || !w(s[|s| - 1]))
    ensures TrimEnd(s + pad, w) == s
  {
    if pad == [] {
      assert s + pad == s;
    } else {
      assert (s + pad)[..|s + pad| - 1] == s + pad[..|pad| - 1];
      TrimEndAt(s, pad[..|pad| - 1], w);
    }
  }

  lemma RegroupedEnd(s: string, t: string, pad: string)
    requires s != [] && s[..|s| - 1] == t + pad
    ensures s == t + (pad + [s[|s| - 1]])
  {
  }

  lemma Regrouped(s: string, pad: string, t: string)
    requires s != [] && s[1..] == pad + t
    ensures s == [s[0]] + pad + t
  {
  }

  /** A text is its left padding, its trimmed body and its right padding. */
  lemma {:induction false} TrimStartParts(s: string, w: char -> bool) returns (pad: string)
    ensures s == pad + TrimStart(s, w) && AllIn(pad, w)
  {
    if s == [] || !w(s[0]) {
      pad := [];
      assert s == pad + s;
    } else {
      var rest := TrimStartParts(s[1..], w);
      pad := [s[0]] + rest;
      Regrouped(s, rest, TrimStart(s[1..], w));
    }
  }

  lemma {:induction false} TrimEndParts(s: string, w: char -> bool) returns (pad: string)
    ensures s == TrimEnd(s, w) + pad && AllIn(pad, w)
  {
    if s == [] || !w(s[|s| - 1]) {
      pad := [];
      assert s == s + pad;
    } else {
      var rest := TrimEndParts(s[..|s| - 1], w);
      pad := rest + [s[|s| - 1]];
      RegroupedEnd(s, TrimEnd(s[..|s| - 1], w), rest);
    }
  }

  /** The trimmed text neither begins nor ends with whitespace. */
  lemma TrimEnds(s: string, w: char -> bool)
    ensures var t := Trim(s, w); t != [] ==> !w(t[0]) && !w(t[|t| - 1])
  {
    var u := TrimStart(s, w);
    var pad := TrimEndParts(u, w);
    assert Trim(s, w) != [] ==> Trim(s, w)[0] == u[0];
  }

  lemma TrimAt(left: string, s: string, right: string, w: char -> bool)
    requires AllIn(left, w) && AllIn(right, w) && s != [] && !w(s[0]) && !w(s[|s| - 1])
    ensures Trim(left + s + right, w) == s
  {
    assert left + s + right == left + (s + right);
    TrimStartAt(left, s + right, w);
    TrimEndAt(s, right, w);
  }

  /** A word is non-empty and free of whitespace. */
  ghost predicate IsWord(t: string, w: char -> bool) {
    t != [] && NoneIn(t, w)
  }

  /** `split_whitespace`. */
  function Words(s: string, w: char -> bool): (r: seq<string>)
    decreases |s|
  {
    var t := TrimStart(s, w);
    if t == [] then []
    else
      var k := Find(t, w);
      [t[..k]] + Words(t[k..], w)
  }

  lemma {:induction false} WordsAreWords(s: string, w: char -> bool)
    ensures forall i :: 0 <= i < |Words(s, w)| ==> IsWord(Words(s, w)[i], w)
    decreases |s|
  {
    var t := TrimStart(s, w);
    if t != [] {
      var k := Find(t, w);
      WordsAreWords(t[k..], w);
      assert IsWord(t[..k], w);
    }
  }

  lemma WordsStep(pad: string, t: string, rest: string, w: char -> bool)
    requires AllIn(pad, w) && IsWord(t, w) && (rest == [] || w(rest[0]))
    ensures Words(pad + t + rest, w) == [t] + Words(rest, w)
  {
    assert pad + t + rest == pad + (t + rest);
    assert (t + rest)[0] == t[0];
    TrimStartAt(pad, t + rest, w);
    FindAt(t + rest, w, |t|);
    assert (t + rest)[..|t|] == t && (t + rest)[|t|..] == rest;
  }

  lemma WordsOfPadding(pad: string, w: char -> bool)
    requires AllIn(pad, w)
    ensures Words(pad, w) == []
  {
    assert pad + [] == pad;
    TrimStartAt(pad, [], w);
  }

  lemma WordsSkip(pad: string, s: string, w: char -> bool)
    requires AllIn(pad, w)
    ensures Words(pad + s, w) == Words(s, w)
  {
    var more := TrimStartParts(s, w);
    var t := TrimStart(s, w);
    assert pad + s == (pad + more) + t;
    TrimStartAt(pad + more, t, w);
  }

  /** Joining words by single spaces and splitting again is the identity. */
  lemma {:induction false} WordsOfJoin(ws: seq<string>, w: char -> bool)
    requires w(' ') && forall i :: 0 <= i < |ws| ==> IsWord(ws[i], w)
    ensures Words(Join(ws, " "), w) == ws
  {
    if ws == [] {
    } else if |ws| == 1 {
      WordsStep([], ws[0], [], w);
      assert [] + ws[0] + [] == ws[0];
    } else {
      var rest := Join(ws[1..], " ");
      WordsOfJoin(ws[1..], w);
      WordsStep([], ws[0], " " + rest, w);
      assert [] + ws[0] + (" " + rest) == Join(ws, " ");
      WordsSkip(" ", rest, w);
    }
  }

  /** Two classes that agree on a text split it into the same words. */
  lemma {:induction false} TrimStartAgrees(s: string, v: char -> bool, w: char -> bool)
    requires forall i :: 0 <= i < |s| ==> v(s[i]) == w(s[i])
    ensures TrimStart(s, v) == TrimStart(s, w)
  {
    if s != [] && w(s[0]) {
      TrimStartAgrees(s[1..], v, w);
    }
  }

  lemma {:induction false} WordsAgree(s: string, v: char -> bool, w: char -> bool)
    requires forall i :: 0 <= i < |s| ==> v(s[i]) == w(s[i])
    ensures Words(s, v) == Words(s, w)
    decreases |s|
  {
    TrimStartAgrees(s, v, w);
    var t := TrimStart(s, w);
    if t != [] {
      var pad := TrimStartParts(s, w);
      assert forall i :: 0 <= i < |t| ==> t[i] == s[|pad| + i];
      var k := Find(t, w);
      FindAt(t, v, k);
      WordsAgree(t[k..], v, w);
    }
  }

  lemma CutAt(pad: string, t: string, k: nat)
    requires k <= |t|
    ensures pad + t == pad + t[..k] + t[k..]
  {
  }

  /** A text that is not all whitespace is padding, its first word and the rest. */
  lemma FirstWord(s: string, w: char -> bool) returns (pad: string, head: string, rest: string)
    requires TrimStart(s, w) != []
    ensures s == pad + head + rest && AllIn(pad, w) && IsWord(head, w) && (rest == [] || w(rest[0]))
    ensures |rest| < |s|
  {
    pad := TrimStartParts(s, w);
    var t := TrimStart(s, w);
    var k := Find(t, w);
    head, rest := t[..k], t[k..];
    CutAt(pad, t, k);
  }

  lemma {:induction false} WordsPadRight(s: string, pad: string, w: char -> bool)
    requires AllIn(pad, w)
    ensures Words(s + pad, w) == Words(s, w)
    decreases |s|
  {
    if TrimStart(s, w) == [] {
      var left := TrimStartParts(s, w);
      assert AllIn(s + pad, w);
      WordsOfPadding(s + pad, w);
    } else {
      var left, head, rest := FirstWord(s, w);
      WordsPadRight(rest, pad, w);
      assert s + pad == left + head + (rest + pad);
      WordsStep(left, head, rest, w);
      WordsStep(left, head, rest + pad, w);
    }
  }

  /** The non-empty pieces of a split are the words of the same class. */
  function NonEmpty(parts: seq<string>): seq<string> {
    if parts == [] then [] else (if parts[0] == [] then [] else [parts[0]]) + NonEmpty(parts[1..])
  }

  lemma NonEmptyCons(a: string, rest: seq<string>)
    ensures NonEmpty([a] + rest) == (if a == [] then [] else [a]) + NonEmpty(rest)
  {
    assert ([a] + rest)[1..] == rest;
  }

  lemma WordsSeparated(a: string, c: char, b: string, w: char -> bool)
    requires NoneIn(a, w) && w(c)
    ensures Words(a + [c] + b, w) == (if a == [] then [] else [a]) + Words(b, w)
  {
    WordsSkip([c], b, w);
    if a == [] {
      assert a + [c] + b == [c] + b;
    } else {
      assert a + [c] + b == [] + a + ([c] + b);
      WordsStep([], a, [c] + b, w);
    }
  }

  lemma WordsOfOne(s: string, w: char -> bool)
    requires NoneIn(s, w)
    ensures Words(s, w) == if s == [] then [] else [s]
  {
    if s != [] {
      WordsStep([], s, [], w);
      assert [] + s + [] == s;
    }
  }

  lemma {:induction false} SplitIsWords(s: string, w: char -> bool)
    ensures NonEmpty(Split(s, w)) == Words(s, w)
    decreases |s|
  {
    var k := Find(s, w);
    if k == |s| {
      SplitNone(s, w);
      WordsOfOne(s, w);
      NonEmptyCons(s, []);
      assert [s] + [] == [s];
    } else {
      var a, c, b := s[..k], s[k], s[k + 1..];
      TakenApart(s, k);
      SplitIsWords(b, w);
      SplitAt(a, c, b, w);
      NonEmptyCons(a, Split(b, w));
      WordsSeparated(a, c, b, w);
    }
  }

  /** Trimming one class does not change the words of a wider one. */
  lemma TrimStartKeepsWords(s: string, v: char -> bool, w: char -> bool)
    requires forall i :: 0 <= i < |s| ==> v(s[i]) ==> w(s[i])
    ensures Words(TrimStart(s, v), w) == Words(s, w)
    ensures forall i :: 0 <= i < |TrimStart(s, v)| ==> v(TrimStart(s, v)[i]) ==> w(TrimStart(s, v)[i])
  {
    var left := TrimStartParts(s, v);
    var u := TrimStart(s, v);
    assert forall i :: 0 <= i < |u| ==> u[i] == s[|left| + i];
    assert forall i :: 0 <= i < |left| ==> left[i] == s[i] && v(left[i]);
    WordsSkip(left, u, w);
  }

  lemma TrimEndKeepsWords(s: string, v: char -> bool, w: char -> bool)
    requires forall i :: 0 <= i < |s| ==> v(s[i]) ==> w(s[i])
    ensures Words(TrimEnd(s, v), w) == Words(s, w)
  {
    var right := TrimEndParts(s, v);
    PaddingWidens(s, TrimEnd(s, v), right, v, w);
    WordsPadRight(TrimEnd(s, v), right, w);
  }

  lemma PaddingWidens(s: string, t: string, right: string, v: char -> bool, w: char -> bool)
    requires s == t + right && AllIn(right, v) && forall i :: 0 <= i < |s| ==> v(s[i]) ==> w(s[i])
    ensures AllIn(right, w)
  {
    forall i | 0 <= i < |right| ensures w(right[i]) {
      assert right[i] == s[|t| + i];
    }
  }

  lemma TrimKeepsWords(s: string, v: char -> bool, w: char -> bool)
    requires forall i :: 0 <= i < |s| ==> v(s[i]) ==> w(s[i])
    ensures Words(Trim(s, v), w) == Words(s, w)
  {
    TrimStartKeepsWords(s, v, w);
    TrimEndKeepsWords(TrimStart(s, v), v, w);
  }

  lemma PartsInherit(pad: string, head: string, rest: string, bad: char -> bool)
    requires NoneIn(pad + head + rest, bad)
    ensures NoneIn(head, bad) && NoneIn(rest, bad)
  {
    var s := pad + head + rest;
    forall i | 0 <= i < |head| ensures !bad(head[i]) {
      assert head[i] == s[|pad| + i];
    }
    forall i | 0 <= i < |rest| ensures !bad(rest[i]) {
      assert rest[i] == s[|pad| + |head| + i];
    }
  }

  lemma {:induction false} WordsInherit(s: string, w: char -> bool, bad: char -> bool)
    requires NoneIn(s, bad)
    ensures forall i :: 0 <= i < |Words(s, w)| ==> NoneIn(Words(s, w)[i], bad)
    decreases |s|
  {
    if TrimStart(s, w) != [] {
      var pad, head, rest := FirstWord(s, w);
      PartsInherit(pad, head, rest, bad);
      WordsInherit(rest, w, bad);
      WordsStep(pad, head, rest, w);
    }
  }

  lemma {:induction false} JoinInherits(ws: seq<string>, bad: char -> bool)
    requires !bad(' ') && forall i :: 0 <= i < |ws| ==> NoneIn(ws[i], bad)
    ensures NoneIn(Join(ws, " "), bad)
  {
    if |ws| > 1 {
      JoinInherits(ws[1..], bad);
    }
  }

  /** A carriage return at the end is whitespace like any other. */
  lemma TrimForgetsLast(s: string, c: char, w: char -> bool)
    requires w(c)
    ensures Trim(s + [c], w) == Trim(s, w)
  {
    var left := TrimStartParts(s, w);
    var u := TrimStart(s, w);
    if u == [] {
      assert s + [c] == (left + [c]) + [];
      TrimStartAt(left + [c], [], w);
    } else {
      assert s + [c] == left + (u + [c]);
      TrimStartAt(left, u + [c], w);
      var right := TrimEndParts(u, w);
      var v := TrimEnd(u, w);
      assert u + [c] == v + (right + [c]);
      TrimEndAt(v, right + [c], w);
    }
  }

  // ---------------------------------------------------------------------------
  // Lines

  /** One trailing carriage return removed. */
  function StripCr(s: string): string {
    if s != [] && s[|s| - 1] == '\r' then s[..|s| - 1] else s
  }

  predicate IsNewline(c: char) {
    c == '\n'
  }

  /** `str::lines`: a final unterminated line is kept whole. */
  function Lines(s: string): (r: seq<string>)
    ensures forall l :: l in r ==> '\n' !in l
  {
    if s == [] then []
    else
      var k := Find(s, IsNewline);
      if k == |s| then [s] else [StripCr(s[..k])] + Lines(s[k + 1..])
  }

  /** Each line followed by a newline. */
  function Unlines(ls: seq<string>): string {
    if ls == [] then [] else ls[0] + "\n" + Unlines(ls[1..])
  }

  /** `lines.join("\n")` and a final newline is `Unlines`, except for no lines at all. */
  lemma {:induction false} JoinedLines(ls: seq<string>)
    requires ls != []
    ensures Join(ls, "\n") + "\n" == Unlines(ls)
  {
    if |ls| > 1 {
      JoinedLines(ls[1..]);
      assert Join(ls, "\n") + "\n" == ls[0] + "\n" + (Join(ls[1..], "\n") + "\n");
    } else {
      assert ls[0] + "\n" + [] == ls[0] + "\n";
    }
  }

  function StripCrs(ls: seq<string>): (r: seq<string>)
    ensures |r| == |ls| && forall i :: 0 <= i < |ls| ==> r[i] == StripCr(ls[i])
  {
    seq(|ls|, i requires 0 <= i < |ls| => StripCr(ls[i]))
  }

  lemma LinesCons(l: string, rest: string)
    requires '\n' !in l
    ensures Lines(l + "\n" + rest) == [StripCr(l)] + Lines(rest)
  {
    var s := l + "\n" + rest;
    assert forall i :: 0 <= i < |l| ==> s[i] == l[i] && l[i] in l;
    FindAt(s, IsNewline, |l|);
    assert s[..|l|] == l && s[|l| + 1..] == rest;
  }

  lemma StripCrsCons(ls: seq<string>)
    requires ls != []
    ensures StripCrs(ls) == [StripCr(ls[0])] + StripCrs(ls[1..])
  {
  }

  /** Reading back written lines costs each at most one carriage return. */
  lemma {:induction false} LinesOfUnlines(ls: seq<string>)
    requires forall l :: l in ls ==> '\n' !in l
    ensures Lines(Unlines(ls)) == StripCrs(ls)
  {
    if ls != [] {
      assert ls[0] in ls;
      LinesOfUnlines(ls[1..]);
      LinesCons(ls[0], Unlines(ls[1..]));
      StripCrsCons(ls);
    }
  }

  // ---------------------------------------------------------------------------
  // Numbers

  function Digit(d: nat): (c: char)
    requires d < 10
    ensures IsDigit(c) && c as int == '0' as int + d
  {
    ('0' as int + d) as char
  }

  function Decimal(n: nat): (r: string)
    ensures r != [] && forall c :: c in r ==> IsDigit(c)
  {
    if n < 10 then [Digit(n)] else Decimal(n / 10) + [Digit(n % 10)]
  }

  /** The value of a run of digits, most significant first. */
  function Value(s: string): nat
    requires forall c :: c in s ==> IsDigit(c)
  {
    if s == [] then 0
    else
      assert IsDigit(s[|s| - 1]);
      Value(s[..|s| - 1]) * 10 + (s[|s| - 1] as int - '0' as int)
  }

  lemma {:induction false} ValueOfDecimal(n: nat)
    ensures Value(Decimal(n)) == n
  {
    if n >= 10 {
      ValueOfDecimal(n / 10);
      var s := Decimal(n);
      assert s[..|s| - 1] == Decimal(n / 10);
    } else {
      assert Value([Digit(n)][..0]) == 0;
    }
  }

  lemma DecimalInjective(a: nat, b: nat)
    ensures Decimal(a) == Decimal(b) <==> a == b
  {
    ValueOfDecimal(a);
    ValueOfDecimal(b);
  }

  /** Rust's unsigned `parse`: an optional `+`, at least one digit, no overflow. */
  function ParseUint(s: string, max: nat): Option<nat> {
    var t := if s != [] && s[0] == '+' then s[1..] else s;
    if t != [] && (forall c | c in t :: IsDigit(c)) && Value(t) <= max then Some(Value(t)) else None
  }

  lemma ParseDecimal(n: nat, max: nat)
    ensures ParseUint(Decimal(n), max) == if n <= max then Some(n) else None
  {
    ValueOfDecimal(n);
    assert Decimal(n)[0] in Decimal(n);
  }
}
