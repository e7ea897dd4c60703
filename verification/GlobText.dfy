/**
 The glob on text: `*` is any run of characters and `?` any one character. The
 source matches the UTF-8 bytes of a name; this module says exactly when the two
 agree. The lemmas hold for every encoding that can be read from any position.
 */
module GlobText {
  import opened Basics
  import opened Glob
  import opened Unicode

  type Enc = char -> seq<byte>

  predicate MatchesText(pattern: string, name: string)
    decreases |pattern| + |name|
  {
    if pattern == [] then name == []
    else if pattern[0] == '*' then
      MatchesText(pattern[1..], name) || (name != [] && MatchesText(pattern, name[1..]))
    else
      name != [] && (pattern[0] == '?' || pattern[0] == name[0]) && MatchesText(pattern[1..], name[1..])
  }

  /** The byte matcher on the encoded pattern and the rest of an encoded name. */
  predicate OnBytes(pattern: string, name: seq<byte>, enc: Enc) {
    Matches(Encode(pattern, enc), name)
  }

  predicate IsWild(c: char) {
    c == '*' || c == '?'
  }

  // ---------------------------------------------------------------------------
  // One pattern character on bytes

  lemma WildBytes(enc: Enc)
    requires IsEncoding(enc)
    ensures enc('*') == [STAR] && enc('?') == [QUERY]
  {
    assert IsShaped('*', enc('*')) && IsShaped('?', enc('?'));
  }

  lemma StarOnBytes(rest: string, name: seq<byte>, enc: Enc)
    requires IsEncoding(enc)
    ensures OnBytes(['*'] + rest, name, enc) <==> OnBytes(rest, name, enc) || (name != [] && OnBytes(['*'] + rest, name[1..], enc))
    ensures OnBytes(['*'] + rest, name, enc) <==> MatchesAfter(Encode(rest, enc), name, 0)
  {
    WildBytes(enc);
    EncodeCons('*', rest, enc);
    var p := [STAR] + Encode(rest, enc);
    assert p[1..] == Encode(rest, enc);
    StarMeans(Encode(rest, enc), name);
  }

  lemma QueryOnBytes(rest: string, name: seq<byte>, enc: Enc)
    requires IsEncoding(enc)
    ensures OnBytes(['?'] + rest, name, enc) <==> name != [] && OnBytes(rest, name[1..], enc)
  {
    WildBytes(enc);
    EncodeCons('?', rest, enc);
    var p := [QUERY] + Encode(rest, enc);
    assert p[1..] == Encode(rest, enc);
  }

  /** Bytes that stand for themselves are matched one by one. */
  lemma {:induction false} LiteralRun(lits: seq<byte>, rest: seq<byte>, name: seq<byte>)
    requires forall i :: 0 <= i < |lits| ==> lits[i] != STAR && lits[i] != QUERY
    ensures Matches(lits + rest, name) <==> lits <= name && Matches(rest, name[|lits|..])
  {
    if lits == [] {
      assert lits + rest == rest && name[0..] == name;
    } else {
      assert (lits + rest)[1..] == lits[1..] + rest;
      if name != [] {
        LiteralRun(lits[1..], rest, name[1..]);
        PrefixCons(lits, name);
        if |lits| <= |name| {
          assert name[1..][|lits| - 1..] == name[|lits|..];
        }
      }
    }
  }

  lemma PrefixCons<T>(a: seq<T>, b: seq<T>)
    requires a != [] && b != []
    ensures a <= b <==> a[0] == b[0] && a[1..] <= b[1..]
  {
    if a[0] == b[0] && a[1..] <= b[1..] {
      assert a == [a[0]] + a[1..] && b == [b[0]] + b[1..];
    }
  }

  lemma LiteralOnBytes(c: char, rest: string, name: seq<byte>, enc: Enc)
    requires IsEncoding(enc) && !IsWild(c)
    ensures OnBytes([c] + rest, name, enc) <==> enc(c) <= name && OnBytes(rest, name[|enc(c)|..], enc)
  {
    EncodeCons(c, rest, enc);
    assert IsShaped(c, enc(c));
    LiteralRun(enc(c), Encode(rest, enc), name);
  }

  // ---------------------------------------------------------------------------
  // The rest of an encoded name, from any position

  ghost predicate AreTails(t: seq<byte>) {
    forall i :: 0 <= i < |t| ==> IsTail(t[i])
  }

  /** Where byte `k` of an encoded name lies: `j` whole characters and part of one before it. */
  lemma {:induction false} Position(name: string, k: nat, enc: Enc) returns (j: nat, tails: seq<byte>)
    requires IsEncoding(enc) && k <= |Encode(name, enc)|
    ensures j <= |name| && AreTails(tails) && Encode(name, enc)[k..] == tails + Encode(name[j..], enc)
    ensures k > 0 ==> j > 0
  {
    if k == 0 {
      j, tails := 0, [];
      assert name[0..] == name && [] + Encode(name, enc) == Encode(name, enc);
    } else {
      var u, more := enc(name[0]), Encode(name[1..], enc);
      assert IsShaped(name[0], u);
      if k < |u| {
        j, tails := 1, u[k..];
        assert (u + more)[k..] == u[k..] + more;
      } else {
        var i, t := Position(name[1..], k - |u|, enc);
        j, tails := i + 1, t;
        assert (u + more)[k..] == more[k - |u|..] && name[1..][i..] == name[i + 1..];
      }
    }
  }

  /** The bytes of the first `j` characters. */
  lemma {:induction false} SkipChars(name: string, j: nat, enc: Enc) returns (k: nat)
    requires IsEncoding(enc) && j <= |name|
    ensures j <= k <= |Encode(name, enc)| && Encode(name, enc)[k..] == Encode(name[j..], enc)
  {
    if j == 0 {
      k := 0;
      assert name[0..] == name && Encode(name, enc)[0..] == Encode(name, enc);
    } else {
      var i := SkipChars(name[1..], j - 1, enc);
      var u, more := enc(name[0]), Encode(name[1..], enc);
      assert IsShaped(name[0], u);
      k := |u| + i;
      assert (u + more)[k..] == more[i..] && name[1..][j - 1..] == name[j..];
    }
  }

  /** A literal matches a whole character, and never begins inside one. */
  lemma LiteralOnRest(c: char, rest: string, tails: seq<byte>, name: string, enc: Enc)
    requires IsEncoding(enc) && !IsWild(c) && AreTails(tails)
    ensures OnBytes([c] + rest, tails + Encode(name, enc), enc) <==>
              tails == [] && name != [] && name[0] == c && OnBytes(rest, Encode(name[1..], enc), enc)
  {
    var x := tails + Encode(name, enc);
    LiteralOnBytes(c, rest, x, enc);
    assert IsShaped(c, enc(c));
    if tails != [] {
      assert x[0] == tails[0];
    } else if name != [] {
      var u, more := enc(name[0]), Encode(name[1..], enc);
      assert x == u + more;
      if enc(c) <= x {
        Recognised(c, name[0], more, enc);
      }
      assert (u + more)[|u|..] == more;
    } else {
      assert x == [];
    }
  }

  lemma NothingOnRest(tails: seq<byte>, name: string, enc: Enc)
    requires IsEncoding(enc)
    ensures OnBytes([], tails + Encode(name, enc), enc) <==> tails == [] && name == []
  {
    if name != [] {
      assert IsShaped(name[0], enc(name[0]));
    }
  }

  /** One byte further. */
  lemma NextByte(tails: seq<byte>, name: string, enc: Enc) returns (t: seq<byte>, m: string)
    requires IsEncoding(enc) && AreTails(tails) && tails + Encode(name, enc) != []
    ensures AreTails(t) && (tails + Encode(name, enc))[1..] == t + Encode(m, enc)
    ensures if tails != [] then t == tails[1..] && m == name else name != [] && t == enc(name[0])[1..] && m == name[1..]
  {
    if tails != [] {
      t, m := tails[1..], name;
      assert (tails + Encode(name, enc))[1..] == tails[1..] + Encode(name, enc);
    } else {
      assert [] + Encode(name, enc) == Encode(name, enc);
      t, m := enc(name[0])[1..], name[1..];
      assert IsShaped(name[0], enc(name[0]));
      assert (enc(name[0]) + Encode(m, enc))[1..] == t + Encode(m, enc);
    }
  }

  // ---------------------------------------------------------------------------
  // A run of wildcards

  function Queries(run: string): nat {
    if run == [] then 0 else (if run[0] == '?' then 1 else 0) + Queries(run[1..])
  }

  /** How much a run of wildcards can take: at least its `?`, and no more without a `*`. */
  predicate Takes(run: string, k: nat) {
    k >= Queries(run) && ('*' !in run ==> k == Queries(run))
  }

  ghost predicate AllWild(run: string) {
    forall i :: 0 <= i < |run| ==> IsWild(run[i])
  }

  ghost predicate RunOnBytes(run: string, rest: string, name: seq<byte>, enc: Enc) {
    exists k :: 0 <= k <= |name| && Takes(run, k) && OnBytes(rest, name[k..], enc)
  }

  lemma {:induction false} RunMeans(run: string, rest: string, name: seq<byte>, enc: Enc)
    requires IsEncoding(enc) && AllWild(run)
    ensures OnBytes(run + rest, name, enc) <==> RunOnBytes(run, rest, name, enc)
    decreases |run|
  {
    if run == [] {
      assert run + rest == rest && name[0..] == name;
      assert Takes([], 0);
    } else {
      var r := run[1..];
      assert run == [run[0]] + r && run + rest == [run[0]] + (r + rest);
      if run[0] == '?' {
        QueryOnBytes(r + rest, name, enc);
        if name != [] {
          RunMeans(r, rest, name[1..], enc);
        }
        QueryRun(r, rest, name, enc);
      } else {
        StarOnBytes(r + rest, name, enc);
        forall j | 0 <= j <= |name| ensures OnBytes(r + rest, name[j..], enc) <==> RunOnBytes(r, rest, name[j..], enc) {
          RunMeans(r, rest, name[j..], enc);
        }
        StarRun(r, rest, name, enc);
      }
    }
  }

  lemma QueryRun(r: string, rest: string, name: seq<byte>, enc: Enc)
    ensures RunOnBytes(['?'] + r, rest, name, enc) <==> name != [] && RunOnBytes(r, rest, name[1..], enc)
  {
    var run := ['?'] + r;
    assert run[1..] == r && ('*' in run <==> '*' in r);
    if RunOnBytes(run, rest, name, enc) {
      var k :| 0 <= k <= |name| && Takes(run, k) && OnBytes(rest, name[k..], enc);
      assert name[1..][k - 1..] == name[k..] && Takes(r, k - 1);
    }
    if name != [] && RunOnBytes(r, rest, name[1..], enc) {
      var k :| 0 <= k <= |name[1..]| && Takes(r, k) && OnBytes(rest, name[1..][k..], enc);
      assert name[1..][k..] == name[k + 1..] && Takes(run, k + 1);
    }
  }

  lemma StarRun(r: string, rest: string, name: seq<byte>, enc: Enc)
    ensures RunOnBytes(['*'] + r, rest, name, enc) <==> exists j :: 0 <= j <= |name| && RunOnBytes(r, rest, name[j..], enc)
  {
    var run := ['*'] + r;
    assert run[1..] == r && '*' in run;
    if RunOnBytes(run, rest, name, enc) {
      var k :| 0 <= k <= |name| && Takes(run, k) && OnBytes(rest, name[k..], enc);
      var j := k - Queries(r);
      assert name[j..][Queries(r)..] == name[k..] && Takes(r, Queries(r));
      assert RunOnBytes(r, rest, name[j..], enc);
    }
    if j :| 0 <= j <= |name| && RunOnBytes(r, rest, name[j..], enc) {
      var k :| 0 <= k <= |name[j..]| && Takes(r, k) && OnBytes(rest, name[j..][k..], enc);
      assert name[j..][k..] == name[j + k..] && Takes(run, j + k);
    }
  }

  ghost predicate RunOnText(run: string, rest: string, name: string) {
    exists k :: 0 <= k <= |name| && Takes(run, k) && MatchesText(rest, name[k..])
  }

  lemma {:induction false} TextRunMeans(run: string, rest: string, name: string)
    requires AllWild(run)
    ensures MatchesText(run + rest, name) <==> RunOnText(run, rest, name)
    decreases |run|, |name|
  {
    if run == [] {
      assert run + rest == rest && name[0..] == name;
      assert Takes([], 0);
    } else {
      var r := run[1..];
      assert run == [run[0]] + r && run + rest == [run[0]] + (r + rest) && (run + rest)[1..] == r + rest;
      TextRunMeans(r, rest, name);
      if name != [] {
        if run[0] == '?' {
          TextRunMeans(r, rest, name[1..]);
        } else {
          TextRunMeans(run, rest, name[1..]);
        }
      }
      TextRunStep(run[0], r, rest, name);
    }
  }

  lemma TextRunStep(c: char, r: string, rest: string, name: string)
    requires IsWild(c)
    ensures RunOnText([c] + r, rest, name) <==>
              if c == '?' then name != [] && RunOnText(r, rest, name[1..])
              else RunOnText(r, rest, name) || (name != [] && RunOnText([c] + r, rest, name[1..]))
  {
    var run := [c] + r;
    assert run[1..] == r && ('*' in run <==> c == '*' || '*' in r);
    if RunOnText(run, rest, name) {
      var k :| 0 <= k <= |name| && Takes(run, k) && MatchesText(rest, name[k..]);
      if k > 0 {
        assert name[1..][k - 1..] == name[k..];
        assert c == '?' ==> Takes(r, k - 1);
        assert c == '*' && k > Queries(r) ==> Takes(run, k - 1);
      }
      assert c == '*' && k == Queries(r) ==> Takes(r, k);
    }
    if name != [] && RunOnText(if c == '?' then r else run, rest, name[1..]) {
      var k :| 0 <= k <= |name[1..]| && Takes(if c == '?' then r else run, k) && MatchesText(rest, name[1..][k..]);
      assert name[1..][k..] == name[k + 1..] && Takes(run, k + 1);
    }
    if c == '*' && RunOnText(r, rest, name) {
      var k :| 0 <= k <= |name| && Takes(r, k) && MatchesText(rest, name[k..]);
      assert Takes(run, k);
    }
  }

  // ---------------------------------------------------------------------------
  // Patterns that mean on bytes what they mean on text

  /** A run of wildcards that asks for the same on bytes and on characters: no `?`, or one beside a `*`. */
  predicate RunOk(queries: nat, star: bool) {
    queries == 0 || (queries == 1 && star)
  }

  /** Every run of wildcards is such a one; `queries` and `star` are of the run read so far. */
  predicate IsSound(pattern: string, queries: nat, star: bool) {
    if pattern == [] then RunOk(queries, star)
    else if pattern[0] == '*' then IsSound(pattern[1..], queries, true)
    else if pattern[0] == '?' then IsSound(pattern[1..], queries + 1, star)
    else RunOk(queries, star) && IsSound(pattern[1..], 0, false)
  }

  /** The wildcards a pattern begins with, and what follows them. */
  lemma {:induction false} FirstRun(pattern: string) returns (run: string, rest: string)
    ensures pattern == run + rest && AllWild(run) && (rest == [] || !IsWild(rest[0]))
  {
    if pattern == [] || !IsWild(pattern[0]) {
      run, rest := [], pattern;
      assert [] + pattern == pattern;
    } else {
      var r, t := FirstRun(pattern[1..]);
      run, rest := [pattern[0]] + r, t;
      assert pattern == [pattern[0]] + pattern[1..];
    }
  }

  lemma {:induction false} SoundRun(run: string, rest: string, queries: nat, star: bool)
    requires AllWild(run) && (rest == [] || !IsWild(rest[0])) && IsSound(run + rest, queries, star)
    ensures RunOk(queries + Queries(run), star || '*' in run) && IsSound(rest, 0, false)
  {
    if run == [] {
      assert run + rest == rest;
    } else {
      assert (run + rest)[1..] == run[1..] + rest && run == [run[0]] + run[1..];
      SoundRun(run[1..], rest, if run[0] == '?' then queries + 1 else queries, star || run[0] == '*');
    }
  }

  /** A sound pattern decides alike on every name. */
  lemma {:induction false} SoundAgrees(pattern: string, name: string, enc: Enc)
    requires IsEncoding(enc) && IsSound(pattern, 0, false)
    ensures OnBytes(pattern, Encode(name, enc), enc) <==> MatchesText(pattern, name)
    decreases |pattern|
  {
    var run, rest := FirstRun(pattern);
    if run == [] {
      assert run + rest == rest;
      LiteralAgrees(pattern, name, enc);
      if pattern != [] && name != [] {
        SoundAgrees(pattern[1..], name[1..], enc);
      }
    } else {
      SoundRun(run, rest, 0, false);
      RunMeans(run, rest, Encode(name, enc), enc);
      TextRunMeans(run, rest, name);
      forall j | 0 <= j <= |name| ensures OnBytes(rest, Encode(name[j..], enc), enc) <==> MatchesText(rest, name[j..]) {
        SoundAgrees(rest, name[j..], enc);
      }
      RunAgrees(run, rest, name, enc);
    }
  }

  lemma LiteralAgrees(pattern: string, name: string, enc: Enc)
    requires IsEncoding(enc) && (pattern == [] || !IsWild(pattern[0]))
    ensures OnBytes(pattern, Encode(name, enc), enc) <==>
              if pattern == [] then name == []
              else name != [] && pattern[0] == name[0] && OnBytes(pattern[1..], Encode(name[1..], enc), enc)
  {
    var none: seq<byte> := [];
    assert none + Encode(name, enc) == Encode(name, enc);
    if pattern == [] {
      NothingOnRest(none, name, enc);
    } else {
      assert pattern == [pattern[0]] + pattern[1..];
      LiteralOnRest(pattern[0], pattern[1..], none, name, enc);
    }
  }

  /** A sound run with a `*` ends on a character, and takes one byte or more exactly when it takes one character or more. */
  lemma RunAgrees(run: string, rest: string, name: string, enc: Enc)
    requires IsEncoding(enc) && AllWild(run) && run != [] && RunOk(Queries(run), '*' in run) && (rest == [] || !IsWild(rest[0]))
    requires forall j :: 0 <= j <= |name| ==> (OnBytes(rest, Encode(name[j..], enc), enc) <==> MatchesText(rest, name[j..]))
    ensures RunOnBytes(run, rest, Encode(name, enc), enc) <==> RunOnText(run, rest, name)
  {
    SomeStar(run);
    if RunOnBytes(run, rest, Encode(name, enc), enc) {
      var k :| 0 <= k <= |Encode(name, enc)| && Takes(run, k) && OnBytes(rest, Encode(name, enc)[k..], enc);
      var j, tails := Position(name, k, enc);
      OnBoundary(rest, tails, name[j..], enc);
      assert Takes(run, j);
    }
    if RunOnText(run, rest, name) {
      var j :| 0 <= j <= |name| && Takes(run, j) && MatchesText(rest, name[j..]);
      var k := SkipChars(name, j, enc);
      assert Takes(run, k);
    }
  }

  lemma {:induction false} SomeStar(run: string)
    requires AllWild(run) && run != []
    ensures Queries(run) == 0 ==> '*' in run
  {
    if run[0] == '?' {
      assert Queries(run) >= 1;
    }
  }

  lemma OnBoundary(rest: string, tails: seq<byte>, name: string, enc: Enc)
    requires IsEncoding(enc) && (rest == [] || !IsWild(rest[0])) && AreTails(tails)
    requires OnBytes(rest, tails + Encode(name, enc), enc)
    ensures tails == [] && OnBytes(rest, Encode(name, enc), enc)
  {
    if rest == [] {
      NothingOnRest(tails, name, enc);
    } else {
      assert rest == [rest[0]] + rest[1..];
      LiteralOnRest(rest[0], rest[1..], tails, name, enc);
    }
    assert tails == [];
    assert tails + Encode(name, enc) == Encode(name, enc);
  }

  // ---------------------------------------------------------------------------
  // Every other pattern has a name on which they differ

  /** Some run holds two `?` or more. */
  predicate IsCrowded(pattern: string, queries: nat) {
    if pattern == [] then queries >= 2
    else if pattern[0] == '*' then IsCrowded(pattern[1..], queries)
    else if pattern[0] == '?' then IsCrowded(pattern[1..], queries + 1)
    else queries >= 2 || IsCrowded(pattern[1..], 0)
  }

  /** Some `?` stands between characters or at an end, with no wildcard beside it; `bound` after a character or at the start. */
  predicate HasLone(pattern: string, bound: bool) {
    if pattern == [] then false
    else if pattern[0] == '?' then (bound && (|pattern| == 1 || !IsWild(pattern[1]))) || HasLone(pattern[1..], false)
    else HasLone(pattern[1..], pattern[0] != '*')
  }

  lemma {:induction false} UnsoundIs(pattern: string, queries: nat, star: bool)
    requires !IsSound(pattern, queries, star)
    ensures || IsCrowded(pattern, queries) || HasLone(pattern, queries == 0 && !star)
            || (queries == 1 && !star && (pattern == [] || !IsWild(pattern[0])))
  {
    if pattern != [] {
      var rest := pattern[1..];
      if pattern[0] == '*' {
        UnsoundIs(rest, queries, true);
      } else if pattern[0] == '?' {
        UnsoundIs(rest, queries + 1, star);
      } else if RunOk(queries, star) {
        UnsoundIs(rest, 0, false);
      }
    }
  }

  /** As many bytes as asked for, in fewer characters when there are two or more: `wide` takes two bytes. */
  function Lean(bytes: nat, wide: char): string {
    if bytes == 0 then [] else if bytes == 1 then "a" else [wide] + Lean(bytes - 2, wide)
  }

  lemma {:induction false} LeanFits(bytes: nat, wide: char, enc: Enc)
    requires IsEncoding(enc) && |enc(wide)| == 2
    ensures |Encode(Lean(bytes, wide), enc)| == bytes && |Lean(bytes, wide)| <= bytes
    ensures bytes >= 2 ==> |Lean(bytes, wide)| < bytes
  {
    if bytes == 1 {
      assert IsShaped('a', enc('a'));
      EncodeCons('a', [], enc);
      assert ['a'] + [] == "a";
    } else if bytes >= 2 {
      LeanFits(bytes - 2, wide, enc);
      EncodeCons(wide, Lean(bytes - 2, wide), enc);
    }
  }

  /** The name a crowded pattern takes on bytes only. */
  function LeanName(pattern: string, queries: nat, wide: char): string {
    if pattern == [] then Lean(queries, wide)
    else if pattern[0] == '*' then LeanName(pattern[1..], queries, wide)
    else if pattern[0] == '?' then LeanName(pattern[1..], queries + 1, wide)
    else Lean(queries, wide) + [pattern[0]] + LeanName(pattern[1..], 0, wide)
  }

  /** The characters a match needs at least. */
  function Needs(pattern: string): nat {
    if pattern == [] then 0 else (if pattern[0] == '*' then 0 else 1) + Needs(pattern[1..])
  }

  lemma {:induction false} MatchNeeds(pattern: string, name: string)
    requires MatchesText(pattern, name)
    ensures |name| >= Needs(pattern)
    decreases |pattern| + |name|
  {
    if pattern != [] {
      if pattern[0] == '*' {
        if MatchesText(pattern[1..], name) {
          MatchNeeds(pattern[1..], name);
        } else {
          MatchNeeds(pattern, name[1..]);
        }
      } else {
        MatchNeeds(pattern[1..], name[1..]);
      }
    }
  }

  lemma {:induction false} LeanIsShort(pattern: string, queries: nat, wide: char, enc: Enc)
    requires IsEncoding(enc) && |enc(wide)| == 2
    ensures |LeanName(pattern, queries, wide)| <= queries + Needs(pattern)
    ensures IsCrowded(pattern, queries) ==> |LeanName(pattern, queries, wide)| < queries + Needs(pattern)
  {
    LeanFits(queries, wide, enc);
    if pattern != [] {
      LeanIsShort(pattern[1..], if pattern[0] == '*' then queries else if pattern[0] == '?' then queries + 1 else 0, wide, enc);
    }
  }

  function Asking(n: nat): (s: string)
    ensures |s| == n && forall i :: 0 <= i < n ==> s[i] == '?'
  {
    seq(n, _ => '?')
  }

  lemma {:induction false} AskingTakes(n: nat, rest: string, name: seq<byte>, enc: Enc)
    requires IsEncoding(enc)
    ensures OnBytes(Asking(n) + rest, name, enc) <==> n <= |name| && OnBytes(rest, name[n..], enc)
    decreases n
  {
    if n == 0 {
      assert Asking(0) + rest == rest && name[0..] == name;
    } else {
      assert Asking(n) + rest == ['?'] + (Asking(n - 1) + rest);
      QueryOnBytes(Asking(n - 1) + rest, name, enc);
      if name != [] {
        AskingTakes(n - 1, rest, name[1..], enc);
        if n <= |name| {
          assert name[1..][n - 1..] == name[n..];
        }
      }
    }
  }

  lemma {:induction false} LeanMatches(pattern: string, queries: nat, wide: char, enc: Enc)
    requires IsEncoding(enc) && |enc(wide)| == 2
    ensures OnBytes(Asking(queries) + pattern, Encode(LeanName(pattern, queries, wide), enc), enc)
    decreases |pattern|
  {
    if pattern == [] {
      LeanFits(queries, wide, enc);
      AskingTakes(queries, [], Encode(Lean(queries, wide), enc), enc);
    } else {
      var c, rest := pattern[0], pattern[1..];
      assert pattern == [c] + rest;
      if c == '*' {
        LeanMatches(rest, queries, wide, enc);
        StarBetween(queries, rest, Encode(LeanName(rest, queries, wide), enc), enc);
      } else if c == '?' {
        LeanMatches(rest, queries + 1, wide, enc);
        AskingMore(queries, rest);
      } else {
        LeanMatches(rest, 0, wide, enc);
        assert Asking(0) + rest == rest;
        LeanLiteral(c, rest, queries, wide, enc);
        AskingTakes(queries, pattern, Encode(Lean(queries, wide) + [c] + LeanName(rest, 0, wide), enc), enc);
      }
    }
  }

  lemma AskingMore(n: nat, rest: string)
    ensures Asking(n) + (['?'] + rest) == Asking(n + 1) + rest
  {
  }

  /** A `*` more takes nothing away. */
  lemma StarBetween(n: nat, rest: string, name: seq<byte>, enc: Enc)
    requires IsEncoding(enc) && OnBytes(Asking(n) + rest, name, enc)
    ensures OnBytes(Asking(n) + (['*'] + rest), name, enc)
  {
    AskingTakes(n, rest, name, enc);
    AskingTakes(n, ['*'] + rest, name, enc);
    StarOnBytes(rest, name[n..], enc);
  }

  lemma LeanLiteral(c: char, rest: string, queries: nat, wide: char, enc: Enc)
    requires IsEncoding(enc) && |enc(wide)| == 2 && !IsWild(c)
    requires OnBytes(rest, Encode(LeanName(rest, 0, wide), enc), enc)
    ensures var name := Encode(Lean(queries, wide) + [c] + LeanName(rest, 0, wide), enc);
            queries <= |name| && OnBytes([c] + rest, name[queries..], enc)
  {
    var more := LeanName(rest, 0, wide);
    LeanFits(queries, wide, enc);
    EncodeConcat(Lean(queries, wide), [c] + more, enc);
    Assoc(Lean(queries, wide), [c], more);
    var tail := Encode([c] + more, enc);
    assert (Encode(Lean(queries, wide), enc) + tail)[queries..] == tail;
    LiteralAgrees([c] + rest, [c] + more, enc);
    assert ([c] + rest)[1..] == rest && ([c] + more)[1..] == more;
  }

  lemma {:induction false} EncodeConcat(a: string, b: string, enc: Enc)
    ensures Encode(a + b, enc) == Encode(a, enc) + Encode(b, enc)
  {
    if a == [] {
      assert a + b == b;
    } else {
      assert (a + b)[1..] == a[1..] + b;
      EncodeConcat(a[1..], b, enc);
      Assoc(enc(a[0]), Encode(a[1..], enc), Encode(b, enc));
    }
  }

  lemma CrowdedDiffers(pattern: string, wide: char, enc: Enc)
    requires IsEncoding(enc) && |enc(wide)| == 2 && IsCrowded(pattern, 0)
    ensures exists name :: OnBytes(pattern, Encode(name, enc), enc) && !MatchesText(pattern, name)
  {
    var name := LeanName(pattern, 0, wide);
    LeanMatches(pattern, 0, wide, enc);
    assert Asking(0) + pattern == pattern;
    LeanIsShort(pattern, 0, wide, enc);
    if MatchesText(pattern, name) {
      MatchNeeds(pattern, name);
    }
  }

  // ---------------------------------------------------------------------------
  // A lone `?` takes an ASCII character on bytes

  function AsciiIn(s: string): nat {
    if s == [] then 0 else (if IsAsciiChar(s[0]) then 1 else 0) + AsciiIn(s[1..])
  }

  /** The ASCII characters a pattern names. */
  function AsciiNamed(pattern: string): nat {
    if pattern == [] then 0
    else (if !IsWild(pattern[0]) && IsAsciiChar(pattern[0]) then 1 else 0) + AsciiNamed(pattern[1..])
  }

  /**
   On bytes, every ASCII character the pattern names is one of the name's, and a
   lone `?` takes one more.
   */
  lemma {:induction false} AsciiCount(pattern: string, tails: seq<byte>, name: string, bound: bool, enc: Enc)
    requires IsEncoding(enc) && AreTails(tails) && (bound ==> tails == [])
    requires OnBytes(pattern, tails + Encode(name, enc), enc)
    ensures AsciiNamed(pattern) <= AsciiIn(name)
    ensures HasLone(pattern, bound) ==> AsciiNamed(pattern) < AsciiIn(name)
    decreases |pattern|, |tails + Encode(name, enc)|
  {
    if pattern != [] {
      var c, rest := pattern[0], pattern[1..];
      assert pattern == [c] + rest;
      var x := tails + Encode(name, enc);
      if c == '*' {
        StarOnBytes(rest, x, enc);
        if OnBytes(rest, x, enc) {
          AsciiCount(rest, tails, name, false, enc);
        } else {
          var t, m := NextByte(tails, name, enc);
          AsciiCount(pattern, t, m, false, enc);
        }
      } else if c == '?' {
        QueryOnBytes(rest, x, enc);
        var t, m := NextByte(tails, name, enc);
        AsciiCount(rest, t, m, false, enc);
        if bound && (rest == [] || !IsWild(rest[0])) {
          OnBoundary(rest, t, m, enc);
          assert IsShaped(name[0], enc(name[0]));
        }
      } else {
        LiteralOnRest(c, rest, tails, name, enc);
        var none: seq<byte> := [];
        assert none + Encode(name[1..], enc) == Encode(name[1..], enc);
        AsciiCount(rest, none, name[1..], true, enc);
      }
    }
  }

  /** Every `?` filled with one character that is not ASCII, every `*` with nothing. */
  function Filled(pattern: string, wide: char): string {
    if pattern == [] then []
    else (if pattern[0] == '*' then [] else if pattern[0] == '?' then [wide] else [pattern[0]]) + Filled(pattern[1..], wide)
  }

  lemma {:induction false} FilledMatches(pattern: string, wide: char)
    requires !IsAsciiChar(wide)
    ensures MatchesText(pattern, Filled(pattern, wide)) && AsciiIn(Filled(pattern, wide)) == AsciiNamed(pattern)
  {
    if pattern != [] {
      FilledMatches(pattern[1..], wide);
      var name, more := Filled(pattern, wide), Filled(pattern[1..], wide);
      if pattern[0] != '*' {
        assert name[1..] == more;
      } else {
        assert name == more;
      }
    }
  }

  lemma LoneDiffers(pattern: string, wide: char, enc: Enc)
    requires IsEncoding(enc) && !IsAsciiChar(wide) && HasLone(pattern, true)
    ensures exists name :: !OnBytes(pattern, Encode(name, enc), enc) && MatchesText(pattern, name)
  {
    var name := Filled(pattern, wide);
    FilledMatches(pattern, wide);
    if OnBytes(pattern, Encode(name, enc), enc) {
      var none: seq<byte> := [];
      assert none + Encode(name, enc) == Encode(name, enc);
      AsciiCount(pattern, none, name, true, enc);
    }
  }

  // ---------------------------------------------------------------------------
  // Exactly when they agree

  const WIDE: char := '\U{00E9}'

  lemma WideTakesTwo()
    ensures |Utf8(WIDE)| == 2 && !IsAsciiChar(WIDE)
  {
  }

  /** What the source computes: the byte matcher on the UTF-8 of both. */
  predicate MatchesUtf8(pattern: string, name: string) {
    OnBytes(pattern, Encode(name, Utf8), Utf8)
  }

  /**
   A pattern means on bytes what it documents, for every name, exactly when each of
   its runs of wildcards that holds a `?` holds one only, and a `*` beside it.
   */
  lemma PatternAgreesIff(pattern: string)
    ensures (forall name :: MatchesUtf8(pattern, name) <==> MatchesText(pattern, name)) <==> IsSound(pattern, 0, false)
  {
    Utf8IsEncoding();
    WideTakesTwo();
    if IsSound(pattern, 0, false) {
      forall name ensures MatchesUtf8(pattern, name) <==> MatchesText(pattern, name) {
        SoundAgrees(pattern, name, Utf8);
      }
    } else {
      UnsoundIs(pattern, 0, false);
      if IsCrowded(pattern, 0) {
        CrowdedDiffers(pattern, WIDE, Utf8);
        var name :| OnBytes(pattern, Encode(name, Utf8), Utf8) && !MatchesText(pattern, name);
        assert MatchesUtf8(pattern, name) != MatchesText(pattern, name);
      } else {
        LoneDiffers(pattern, WIDE, Utf8);
        var name :| !OnBytes(pattern, Encode(name, Utf8), Utf8) && MatchesText(pattern, name);
        assert MatchesUtf8(pattern, name) != MatchesText(pattern, name);
      }
    }
  }

  predicate IsAscii(s: string) {
    forall i | 0 <= i < |s| :: IsAsciiChar(s[i])
  }

  lemma {:induction false} AsciiAgrees(pattern: string, name: string, enc: Enc)
    requires IsEncoding(enc) && IsAscii(name)
    ensures OnBytes(pattern, Encode(name, enc), enc) <==> MatchesText(pattern, name)
    decreases |pattern| + |name|
  {
    if pattern == [] || !IsWild(pattern[0]) {
      LiteralAgrees(pattern, name, enc);
      if pattern != [] && name != [] {
        AsciiAgrees(pattern[1..], name[1..], enc);
      }
    } else {
      var rest := pattern[1..];
      assert pattern == [pattern[0]] + rest;
      StarOnBytes(rest, Encode(name, enc), enc);
      QueryOnBytes(rest, Encode(name, enc), enc);
      AsciiAgrees(rest, name, enc);
      if name != [] {
        assert IsShaped(name[0], enc(name[0]));
        assert Encode(name, enc)[1..] == Encode(name[1..], enc);
        AsciiAgrees(rest, name[1..], enc);
        AsciiAgrees(pattern, name[1..], enc);
      }
    }
  }

  lemma {:induction false} EncodedLength(name: string, enc: Enc)
    requires IsEncoding(enc)
    ensures |Encode(name, enc)| >= |name| && (|Encode(name, enc)| == |name| <==> IsAscii(name))
  {
    if name != [] {
      EncodedLength(name[1..], enc);
      assert IsShaped(name[0], enc(name[0]));
      assert IsAscii(name) <==> IsAsciiChar(name[0]) && IsAscii(name[1..]) by {
        if IsAsciiChar(name[0]) && IsAscii(name[1..]) {
          forall i | 0 <= i < |name| ensures IsAsciiChar(name[i]) {
            assert i > 0 ==> name[i] == name[1..][i - 1];
          }
        }
      }
    }
  }

  lemma {:induction false} AskingText(name: string)
    ensures MatchesText(Asking(|name|), name)
  {
    if name != [] {
      AskingText(name[1..]);
      assert Asking(|name|)[1..] == Asking(|name[1..]|);
    }
  }

  /** A name is matched on bytes as documented, by every pattern, exactly when it is ASCII. */
  lemma NameAgreesIff(name: string)
    ensures (forall pattern :: MatchesUtf8(pattern, name) <==> MatchesText(pattern, name)) <==> IsAscii(name)
  {
    Utf8IsEncoding();
    if IsAscii(name) {
      forall pattern ensures MatchesUtf8(pattern, name) <==> MatchesText(pattern, name) {
        AsciiAgrees(pattern, name, Utf8);
      }
    } else {
      var pattern := Asking(|name|);
      AskingText(name);
      EncodedLength(name, Utf8);
      AskingTakes(|name|, [], Encode(name, Utf8), Utf8);
      assert pattern + [] == pattern;
      assert MatchesUtf8(pattern, name) != MatchesText(pattern, name);
    }
  }

  /** One `?` is one byte, so a two-byte character is refused by `?` and taken by `??`. */
  lemma QueryIsOneByte(c: char)
    requires 0x80 <= c as int < 0x800
    ensures MatchesText("?", [c]) && !MatchesUtf8("?", [c])
    ensures !MatchesText("??", [c]) && MatchesUtf8("??", [c])
  {
    Utf8IsEncoding();
    EncodeCons(c, [], Utf8);
    assert [c] + [] == [c] && |Encode([c], Utf8)| == 2;
    AskingTakes(1, [], Encode([c], Utf8), Utf8);
    AskingTakes(2, [], Encode([c], Utf8), Utf8);
    assert Asking(1) + [] == "?" && Asking(2) + [] == "??";
    assert "?"[1..] == [] && "??"[1..] == "?" && [c][1..] == [];
  }
}
