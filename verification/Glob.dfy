/**
 The file-name glob of `fraisier-db` retention: `*` is any run of bytes, `?` any
 one byte. The source matches with one backtracking point; `Matches` below is the
 plain recursive meaning it is proved against.
 */
module Glob {
  import opened Basics

  const STAR: byte := 42
  const QUERY: byte := 63

  /** What a pattern means: every way of letting each `*` swallow a run of bytes. */
  predicate Matches(pattern: seq<byte>, name: seq<byte>)
    decreases |pattern| + |name|
  {
    if pattern == [] then name == []
    else if pattern[0] == STAR then
      Matches(pattern[1..], name) || (name != [] && Matches(pattern, name[1..]))
    else
      name != [] && (pattern[0] == QUERY || pattern[0] == name[0]) && Matches(pattern[1..], name[1..])
  }

  /**
   A name cut into consecutive stretches, one for each byte of the pattern: any
   stretch for a `*`, one byte for a `?`, and the byte itself for any other.
   */
  ghost predicate IsCutFor(cuts: seq<nat>, pattern: seq<byte>, name: seq<byte>) {
    && |cuts| == |pattern| + 1 && cuts[0] == 0 && cuts[|pattern|] == |name|
    && forall i :: 0 <= i < |pattern| ==> Stretches(pattern[i], name, cuts[i], cuts[i + 1])
  }

  ghost predicate Stretches(p: byte, name: seq<byte>, from: nat, to: nat) {
    && from <= to <= |name|
    && (p != STAR ==> to == from + 1 && (p == QUERY || p == name[from]))
  }

  /** The cuts of a name, one step further along it. */
  function Moved(cuts: seq<nat>, shift: int): (r: seq<nat>)
    requires forall i :: 0 <= i < |cuts| ==> cuts[i] + shift >= 0
    ensures |r| == |cuts| && forall i :: 0 <= i < |cuts| ==> r[i] == cuts[i] + shift
  {
    seq(|cuts|, i requires 0 <= i < |cuts| => cuts[i] + shift)
  }

  lemma StretchMoves(p: byte, name: seq<byte>, d: nat, from: nat, to: nat)
    requires d <= |name|
    ensures Stretches(p, name[d..], from, to) <==> Stretches(p, name, from + d, to + d)
  {
  }

  lemma {:induction false} MatchIsCut(pattern: seq<byte>, name: seq<byte>) returns (cuts: seq<nat>)
    requires Matches(pattern, name)
    ensures IsCutFor(cuts, pattern, name)
    decreases |pattern| + |name|
  {
    if pattern == [] {
      cuts := [0];
    } else if pattern[0] == STAR && !Matches(pattern[1..], name) {
      var rest := MatchIsCut(pattern, name[1..]);
      cuts := [0] + Moved(rest[1..], 1);
      CutGrows(rest, cuts, pattern, name);
    } else {
      var d := if pattern[0] == STAR then 0 else 1;
      assert name[0..] == name;
      var rest := MatchIsCut(pattern[1..], name[d..]);
      cuts := [0] + Moved(rest, d);
      CutBegins(rest, cuts, pattern, name, d);
    }
  }

  /** The first star swallows one more byte. */
  lemma CutGrows(rest: seq<nat>, cuts: seq<nat>, pattern: seq<byte>, name: seq<byte>)
    requires pattern != [] && name != [] && pattern[0] == STAR && IsCutFor(rest, pattern, name[1..])
    requires cuts == [0] + Moved(rest[1..], 1)
    ensures IsCutFor(cuts, pattern, name)
  {
    forall i | 0 <= i < |pattern| ensures Stretches(pattern[i], name, cuts[i], cuts[i + 1]) {
      assert Stretches(pattern[i], name[1..], rest[i], rest[i + 1]);
      StretchMoves(pattern[i], name, 1, rest[i], rest[i + 1]);
      assert cuts[i + 1] == rest[i + 1] + 1;
    }
  }

  /** One stretch of `d` bytes in front. */
  lemma CutBegins(rest: seq<nat>, cuts: seq<nat>, pattern: seq<byte>, name: seq<byte>, d: nat)
    requires pattern != [] && d <= |name| && Stretches(pattern[0], name, 0, d) && IsCutFor(rest, pattern[1..], name[d..])
    requires cuts == [0] + Moved(rest, d)
    ensures IsCutFor(cuts, pattern, name)
  {
    forall i | 0 <= i < |pattern| ensures Stretches(pattern[i], name, cuts[i], cuts[i + 1]) {
      assert cuts[i + 1] == rest[i] + d;
      if i > 0 {
        assert Stretches(pattern[1..][i - 1], name[d..], rest[i - 1], rest[i]);
        StretchMoves(pattern[i], name, d, rest[i - 1], rest[i]);
        assert cuts[i] == rest[i - 1] + d;
      }
    }
  }

  /** The cuts after the first stretch. */
  lemma CutEnds(cuts: seq<nat>, rest: seq<nat>, pattern: seq<byte>, name: seq<byte>)
    requires pattern != [] && IsCutFor(cuts, pattern, name)
    requires |rest| == |cuts| - 1 && forall i :: 0 <= i < |rest| ==> rest[i] + cuts[1] == cuts[i + 1]
    ensures cuts[1] <= |name| && IsCutFor(rest, pattern[1..], name[cuts[1]..])
  {
    var d := cuts[1];
    assert Stretches(pattern[0], name, cuts[0], cuts[1]);
    assert rest[0] + d == cuts[1] && rest[|rest| - 1] + d == cuts[|cuts| - 1];
    forall i | 0 <= i < |pattern[1..]| ensures Stretches(pattern[1..][i], name[d..], rest[i], rest[i + 1]) {
      assert Stretches(pattern[i + 1], name, cuts[i + 1], cuts[i + 2]);
      assert rest[i] + d == cuts[i + 1] && rest[i + 1] + d == cuts[i + 2];
      StretchMoves(pattern[i + 1], name, d, rest[i], rest[i + 1]);
    }
  }

  lemma {:induction false} CutsAscend(cuts: seq<nat>, pattern: seq<byte>, name: seq<byte>, i: nat)
    requires IsCutFor(cuts, pattern, name) && 1 <= i <= |pattern|
    ensures cuts[1] <= cuts[i]
  {
    if i > 1 {
      CutsAscend(cuts, pattern, name, i - 1);
      assert Stretches(pattern[i - 1], name, cuts[i - 1], cuts[i]);
    }
  }

  lemma {:induction false} CutMatches(cuts: seq<nat>, pattern: seq<byte>, name: seq<byte>)
    requires IsCutFor(cuts, pattern, name)
    ensures Matches(pattern, name)
    decreases |pattern|
  {
    if pattern != [] {
      var d: int := cuts[1];
      forall i | 1 <= i < |cuts| ensures cuts[i] >= d {
        CutsAscend(cuts, pattern, name, i);
      }
      var rest := Moved(cuts[1..], -d);
      CutEnds(cuts, rest, pattern, name);
      CutMatches(rest, pattern[1..], name[d..]);
      assert Stretches(pattern[0], name, 0, d);
      if pattern[0] == STAR {
        StarMeans(pattern[1..], name);
        assert pattern == [STAR] + pattern[1..];
      }
    }
  }

  /** What a glob means, without recursion: the name can be cut to fit the pattern. */
  lemma MatchesIffCut(pattern: seq<byte>, name: seq<byte>)
    ensures Matches(pattern, name) <==> exists cuts :: IsCutFor(cuts, pattern, name)
  {
    if Matches(pattern, name) {
      var cuts := MatchIsCut(pattern, name);
    }
    if cuts :| IsCutFor(cuts, pattern, name) {
      CutMatches(cuts, pattern, name);
    }
  }

  /** Some run of at least `from` bytes can be swallowed before the rest matches. */
  ghost predicate MatchesAfter(rest: seq<byte>, name: seq<byte>, from: nat) {
    exists k :: from <= k <= |name| && Matches(rest, name[k..])
  }

  lemma {:induction false} StarMeans(rest: seq<byte>, name: seq<byte>)
    ensures Matches([STAR] + rest, name) <==> MatchesAfter(rest, name, 0)
    decreases |name|
  {
    var p := [STAR] + rest;
    assert p[1..] == rest;
    assert name[0..] == name;
    if name != [] {
      StarMeans(rest, name[1..]);
      if MatchesAfter(rest, name[1..], 0) {
        var k :| 0 <= k <= |name| - 1 && Matches(rest, name[1..][k..]);
        assert name[1..][k..] == name[k + 1..];
      }
      if MatchesAfter(rest, name, 0) && !Matches(rest, name) {
        var k :| 0 <= k <= |name| && Matches(rest, name[k..]);
        assert name[1..][k - 1..] == name[k..];
      }
    } else {
      assert forall k :: 0 <= k <= 0 ==> name[k..] == name;
    }
  }

  /** A run of pattern bytes without `*` consumes exactly as many bytes of the name. */
  lemma {:induction false} PlainRun(pattern: seq<byte>, name: seq<byte>, len: nat)
    requires len <= |pattern| && STAR !in pattern[..len] && Matches(pattern, name)
    ensures len <= |name| && Matches(pattern[len..], name[len..])
  {
    if len == 0 {
      assert pattern[0..] == pattern && name[0..] == name;
    } else {
      assert pattern[..len][0] == pattern[0];
      assert forall b :: b in pattern[1..][..len - 1] ==> b in pattern[..len];
      PlainRun(pattern[1..], name[1..], len - 1);
      assert pattern[1..][len - 1..] == pattern[len..] && name[1..][len - 1..] == name[len..];
    }
  }

  /**
   A later `*` makes every alternative of an earlier one redundant: whatever the
   earlier one would swallow more, the later one can swallow instead.
   */
  lemma LaterStarSubsumes(pattern: seq<byte>, name: seq<byte>, sp: nat, sn: nat, p: nat, n: nat)
    requires sp < p < |pattern| && pattern[p] == STAR && sn <= n <= |name| && n - sn == p - sp - 1
    requires STAR !in pattern[sp + 1..p]
    requires MatchesAfter(pattern[sp + 1..], name, sn + 1)
    ensures Matches(pattern[p..], name[n..])
  {
    var k :| sn + 1 <= k <= |name| && Matches(pattern[sp + 1..], name[k..]);
    var len := p - sp - 1;
    assert pattern[sp + 1..][..len] == pattern[sp + 1..p];
    PlainRun(pattern[sp + 1..], name[k..], len);
    assert pattern[sp + 1..][len..] == pattern[p..] && name[k..][len..] == name[k + len..];
    var rest := pattern[p + 1..];
    assert pattern[p..] == [STAR] + rest;
    StarMeans(rest, name[k + len..]);
    var j :| 0 <= j <= |name[k + len..]| && Matches(rest, name[k + len..][j..]);
    assert name[k + len..][j..] == name[n..][k + len + j - n..];
    StarMeans(rest, name[n..]);
  }

  /** At the end of the name, more swallowing leaves too few bytes for what already matched. */
  lemma NoBytesLeft(pattern: seq<byte>, name: seq<byte>, sp: nat, sn: nat, p: nat)
    requires sp < p <= |pattern| && sn <= |name| && |name| - sn == p - sp - 1
    requires STAR !in pattern[sp + 1..p]
    ensures !MatchesAfter(pattern[sp + 1..], name, sn + 1)
  {
    if MatchesAfter(pattern[sp + 1..], name, sn + 1) {
      var k :| sn + 1 <= k <= |name| && Matches(pattern[sp + 1..], name[k..]);
      assert pattern[sp + 1..][..p - sp - 1] == pattern[sp + 1..p];
      PlainRun(pattern[sp + 1..], name[k..], p - sp - 1);
      assert false;
    }
  }

  lemma {:induction false} OnlyStars(pattern: seq<byte>)
    ensures Matches(pattern, []) <==> forall b :: b in pattern ==> b == STAR
  {
    if pattern != [] {
      OnlyStars(pattern[1..]);
      assert pattern[0] in pattern;
      assert forall b :: b in pattern <==> b == pattern[0] || b in pattern[1..];
    }
  }

  lemma AfterSplits(rest: seq<byte>, name: seq<byte>, from: nat)
    requires from <= |name|
    ensures MatchesAfter(rest, name, from) <==> Matches(rest, name[from..]) || MatchesAfter(rest, name, from + 1)
  {
  }

  /** The search position: what is still to match, and the last `*` with where it stands. */
  datatype Cursor = Cursor(p: nat, n: nat, star: Option<(nat, nat)>)

  ghost predicate InRange(pattern: seq<byte>, name: seq<byte>, c: Cursor) {
    && c.p <= |pattern| && c.n <= |name|
    && (c.star.Some? ==>
          var (sp, sn) := c.star.value;
          && sp < c.p && sn <= c.n && c.n - sn == c.p - sp - 1
          && pattern[sp] == STAR && STAR !in pattern[sp + 1..c.p])
  }

  /** What the search has left to try. */
  ghost predicate CanFinish(pattern: seq<byte>, name: seq<byte>, c: Cursor)
    requires InRange(pattern, name, c)
  {
    || Matches(pattern[c.p..], name[c.n..])
    || (c.star.Some? && MatchesAfter(pattern[c.star.value.0 + 1..], name, c.star.value.1 + 1))
  }

  lemma AtStar(pattern: seq<byte>, name: seq<byte>, c: Cursor)
    requires InRange(pattern, name, c) && c.p < |pattern| && pattern[c.p] == STAR
    ensures var d := Cursor(c.p + 1, c.n, Some((c.p, c.n)));
            InRange(pattern, name, d) && (CanFinish(pattern, name, c) <==> CanFinish(pattern, name, d))
  {
    var rest := pattern[c.p + 1..];
    if c.star.Some? && MatchesAfter(pattern[c.star.value.0 + 1..], name, c.star.value.1 + 1) {
      LaterStarSubsumes(pattern, name, c.star.value.0, c.star.value.1, c.p, c.n);
    }
    assert pattern[c.p..] == [STAR] + rest;
    StarMeans(rest, name[c.n..]);
    Shift(rest, name, c.n);
    AfterSplits(rest, name, c.n);
  }

  lemma AtByte(pattern: seq<byte>, name: seq<byte>, c: Cursor)
    requires InRange(pattern, name, c) && c.p < |pattern| && c.n < |name|
    requires pattern[c.p] != STAR && (pattern[c.p] == QUERY || pattern[c.p] == name[c.n])
    ensures var d := c.(p := c.p + 1, n := c.n + 1);
            InRange(pattern, name, d) && (CanFinish(pattern, name, c) <==> CanFinish(pattern, name, d))
  {
    assert pattern[c.p..][1..] == pattern[c.p + 1..] && name[c.n..][1..] == name[c.n + 1..];
    if c.star.Some? {
      var sp := c.star.value.0;
      assert pattern[sp + 1..c.p + 1] == pattern[sp + 1..c.p] + [pattern[c.p]];
    }
  }

  lemma AtMismatch(pattern: seq<byte>, name: seq<byte>, c: Cursor)
    requires InRange(pattern, name, c) && c.n < |name|
    requires c.p < |pattern| ==> pattern[c.p] != STAR && pattern[c.p] != QUERY && pattern[c.p] != name[c.n]
    ensures c.star.None? ==> !CanFinish(pattern, name, c)
    ensures c.star.Some? ==>
              var (sp, sn) := c.star.value;
              var d := Cursor(sp + 1, sn + 1, Some((sp, sn + 1)));
              InRange(pattern, name, d) && (CanFinish(pattern, name, c) <==> CanFinish(pattern, name, d))
  {
    Mismatch(pattern[c.p..], name[c.n..]);
    if c.star.Some? {
      var (sp, sn) := c.star.value;
      AfterSplits(pattern[sp + 1..], name, sn + 1);
    }
  }

  lemma Mismatch(pattern: seq<byte>, name: seq<byte>)
    requires name != [] && (pattern != [] ==> pattern[0] != STAR && pattern[0] != QUERY && pattern[0] != name[0])
    ensures !Matches(pattern, name)
  {
  }

  lemma AtEnd(pattern: seq<byte>, name: seq<byte>, c: Cursor)
    requires InRange(pattern, name, c) && c.n == |name|
    ensures CanFinish(pattern, name, c) <==> forall b :: b in pattern[c.p..] ==> b == STAR
  {
    assert name[c.n..] == [];
    OnlyStars(pattern[c.p..]);
    if c.star.Some? {
      NoBytesLeft(pattern, name, c.star.value.0, c.star.value.1, c.p);
    }
  }

  /** What the loop keeps: the position is in range, and what is left to try decides the answer. */
  ghost predicate Decides(pattern: seq<byte>, name: seq<byte>, c: Cursor, answer: bool) {
    InRange(pattern, name, c) && (answer <==> CanFinish(pattern, name, c))
  }

  lemma Begins(pattern: seq<byte>, name: seq<byte>)
    ensures Decides(pattern, name, Cursor(0, 0, None), Matches(pattern, name))
  {
    assert pattern[0..] == pattern && name[0..] == name;
  }

  /** The next position, as the body of the loop computes it; `None` when nothing is left to try. */
  function Next(pattern: seq<byte>, name: seq<byte>, c: Cursor): Option<Cursor>
    requires c.p <= |pattern| && c.n < |name|
  {
    if c.p < |pattern| && pattern[c.p] == STAR then Some(Cursor(c.p + 1, c.n, Some((c.p, c.n))))
    else if c.p < |pattern| && (pattern[c.p] == QUERY || pattern[c.p] == name[c.n]) then Some(c.(p := c.p + 1, n := c.n + 1))
    else if c.star.None? then None
    else Some(Cursor(c.star.value.0 + 1, c.star.value.1 + 1, Some((c.star.value.0, c.star.value.1 + 1))))
  }

  lemma NextDecides(pattern: seq<byte>, name: seq<byte>, c: Cursor, answer: bool)
    requires Decides(pattern, name, c, answer) && c.n < |name|
    ensures var d := Next(pattern, name, c); if d.None? then !answer else Decides(pattern, name, d.value, answer)
  {
    if c.p < |pattern| && pattern[c.p] == STAR {
      AtStar(pattern, name, c);
    } else if c.p < |pattern| && (pattern[c.p] == QUERY || pattern[c.p] == name[c.n]) {
      AtByte(pattern, name, c);
    } else {
      AtMismatch(pattern, name, c);
    }
  }

  /** Every turn moves the last `*` on, or consumes some of the pattern. */
  lemma NextShrinks(pattern: seq<byte>, name: seq<byte>, c: Cursor)
    requires InRange(pattern, name, c) && c.n < |name| && Next(pattern, name, c).Some?
    ensures var d := Next(pattern, name, c).value;
            Left(name, d) < Left(name, c) || (Left(name, d) == Left(name, c) && d.p > c.p)
    ensures Next(pattern, name, c).value.p <= |pattern|
  {
  }

  /** How far the last `*` can still move. */
  function Left(name: seq<byte>, c: Cursor): int {
    if c.star.Some? then |name| - c.star.value.1 else |name| + 1
  }

  /** A property of positions that every turn keeps, within the bounds the loop needs. */
  ghost predicate IsKept(pattern: seq<byte>, name: seq<byte>, kept: Cursor -> bool) {
    && kept(Cursor(0, 0, None))
    && (forall c :: kept(c) ==> c.p <= |pattern| && c.n <= |name| && (c.star.Some? ==> c.star.value.1 <= c.n))
    && (forall c {:trigger Next(pattern, name, c)} :: kept(c) && c.n < |name| && Next(pattern, name, c).Some? ==>
          var d := Next(pattern, name, c).value;
          kept(d) && (Left(name, d) < Left(name, c) || (Left(name, d) == Left(name, c) && d.p > c.p)))
  }

  lemma KeptNext(pattern: seq<byte>, name: seq<byte>, kept: Cursor -> bool, c: Cursor)
    requires IsKept(pattern, name, kept) && kept(c) && c.n < |name|
    ensures c.p <= |pattern| && (c.star.Some? ==> c.star.value.1 <= c.n)
    ensures Next(pattern, name, c).Some? ==>
              var d := Next(pattern, name, c).value;
              kept(d) && d.p <= |pattern| && 0 <= Left(name, d) && (Left(name, d) < Left(name, c) || (Left(name, d) == Left(name, c) && d.p > c.p))
  {
  }

  /** The loop of `matches`: one pass with a single remembered `*`, `None` when it gives up. */
  method Scan(pattern: seq<byte>, name: seq<byte>, ghost kept: Cursor -> bool) returns (end: Option<Cursor>)
    requires IsKept(pattern, name, kept)
    ensures end.Some? ==> kept(end.value) && end.value.n == |name|
    ensures end.None? ==> exists c :: kept(c) && c.n < |name| && Next(pattern, name, c).None?
  {
    var p, n := 0, 0;
    var star: Option<(nat, nat)> := None;
    while n < |name|
      invariant kept(Cursor(p, n, star))
      decreases Left(name, Cursor(p, n, star)), |pattern| - p
    {
      ghost var c := Cursor(p, n, star);
      KeptNext(pattern, name, kept, c);
      if p < |pattern| && pattern[p] == STAR {
        star := Some((p, n));
        p := p + 1;
      } else if p < |pattern| && (pattern[p] == QUERY || pattern[p] == name[n]) {
        p, n := p + 1, n + 1;
      } else if star.None? {
        return None;
      } else {
        var (sp, sn) := star.value;
        p, n, star := sp + 1, sn + 1, Some((sp, sn + 1));
      }
      assert Next(pattern, name, c) == Some(Cursor(p, n, star));
    }
    end := Some(Cursor(p, n, star));
  }

  lemma DecidesIsKept(pattern: seq<byte>, name: seq<byte>, answer: bool)
    requires answer == Matches(pattern, name)
    ensures IsKept(pattern, name, c => Decides(pattern, name, c, answer))
  {
    Begins(pattern, name);
    forall c | Decides(pattern, name, c, answer) && c.n < |name| && Next(pattern, name, c).Some?
      ensures var d := Next(pattern, name, c).value;
              Decides(pattern, name, d, answer) && (Left(name, d) < Left(name, c) || (Left(name, d) == Left(name, c) && d.p > c.p))
    {
      NextDecides(pattern, name, c, answer);
      NextShrinks(pattern, name, c);
    }
  }

  /** `matches`. */
  method MatchGlob(pattern: seq<byte>, name: seq<byte>) returns (matched: bool)
    ensures matched == Matches(pattern, name)
  {
    ghost var answer := Matches(pattern, name);
    DecidesIsKept(pattern, name, answer);
    var end := Scan(pattern, name, c => Decides(pattern, name, c, answer));
    if end.None? {
      ghost var c :| Decides(pattern, name, c, answer) && c.n < |name| && Next(pattern, name, c).None?;
      NextDecides(pattern, name, c, answer);
      return false;
    }
    AtEnd(pattern, name, end.value);
    matched := forall b | b in pattern[end.value.p..] :: b == STAR;
  }

  lemma Shift(rest: seq<byte>, name: seq<byte>, n: nat)
    requires n <= |name|
    ensures MatchesAfter(rest, name[n..], 0) <==> MatchesAfter(rest, name, n)
  {
    if MatchesAfter(rest, name[n..], 0) {
      var k :| 0 <= k <= |name[n..]| && Matches(rest, name[n..][k..]);
      assert name[n..][k..] == name[n + k..];
    }
    if MatchesAfter(rest, name, n) {
      var k :| n <= k <= |name| && Matches(rest, name[k..]);
      assert name[n..][k - n..] == name[k..];
    }
  }
}
