/**
 What the nginx adapter finds in a configuration file, told from the shape of its
 lines and their positions: which line opens the upstream, which lines close it,
 which directive is a host's own, and what that directive states.
 */
module Directives {
  import opened Basics
  import opened Text
  import opened PoolFile
  import opened Upstream

  // ---------------------------------------------------------------------------
  // Where the scan stops, for any grammar

  /** From line `a` on, line `i` is the first for the host, and neither it nor a line before it closes the block. */
  ghost predicate IsFirstFrom(g: Grammar, lines: seq<string>, token: string, a: nat, i: nat) {
    && a <= i < |lines| && g.host(lines[i]) == Some(token)
    && (forall j :: a <= j <= i ==> !g.closes(lines[j]))
    && (forall j :: a <= j < i ==> g.host(lines[j]) != Some(token))
  }

  /** Line `o` is the first to open the block. */
  ghost predicate IsOpening(g: Grammar, lines: seq<string>, o: nat) {
    o < |lines| && g.opens(lines[o]) && forall j :: 0 <= j < o ==> !g.opens(lines[j])
  }

  lemma FirstInTail(g: Grammar, lines: seq<string>, token: string, a: nat, i: nat)
    requires lines != [] && i > 0 && a > 0
    ensures IsFirstFrom(g, lines, token, a, i) <==> IsFirstFrom(g, lines[1..], token, a - 1, i - 1)
  {
    var rest := lines[1..];
    assert forall j :: 0 < j < |lines| ==> lines[j] == rest[j - 1];
    if IsFirstFrom(g, rest, token, a - 1, i - 1) {
      forall j | a <= j <= i ensures !g.closes(lines[j]) && (j < i ==> g.host(lines[j]) != Some(token)) {
        assert !g.closes(rest[j - 1]) && (j < i ==> g.host(rest[j - 1]) != Some(token));
      }
    }
  }

  lemma OpeningInTail(g: Grammar, lines: seq<string>, o: nat)
    requires lines != [] && !g.opens(lines[0]) && o > 0
    ensures IsOpening(g, lines, o) <==> IsOpening(g, lines[1..], o - 1)
  {
    var rest := lines[1..];
    if IsOpening(g, rest, o - 1) {
      forall j | 0 <= j < o ensures !g.opens(lines[j]) {
        assert j > 0 ==> lines[j] == rest[j - 1];
      }
    }
  }

  lemma {:induction false} ScanInBlock(g: Grammar, lines: seq<string>, token: string, index: nat, i: nat)
    ensures Scan(g, lines, token, true, index) == Some(index + i) <==> IsFirstFrom(g, lines, token, 0, i)
  {
    if lines != [] && !g.closes(lines[0]) && g.host(lines[0]) != Some(token) && i > 0 {
      ScanInBlock(g, lines[1..], token, index + 1, i - 1);
      FirstInTail(g, lines, token, 1, i);
    }
  }

  /** What the scan is after: the first opening line, and the host's first line in its block. */
  ghost predicate IsFound(g: Grammar, lines: seq<string>, token: string, i: nat) {
    exists o: nat :: IsOpening(g, lines, o) && IsFirstFrom(g, lines, token, o + 1, i)
  }

  lemma FoundInTail(g: Grammar, lines: seq<string>, token: string, i: nat)
    requires lines != [] && !g.opens(lines[0]) && i > 0
    ensures IsFound(g, lines, token, i) <==> IsFound(g, lines[1..], token, i - 1)
  {
    var rest := lines[1..];
    if o: nat :| IsOpening(g, lines, o) && IsFirstFrom(g, lines, token, o + 1, i) {
      OpeningInTail(g, lines, o);
      FirstInTail(g, lines, token, o + 1, i);
      assert IsFound(g, rest, token, i - 1);
    }
    if o: nat :| IsOpening(g, rest, o) && IsFirstFrom(g, rest, token, o + 1, i - 1) {
      OpeningInTail(g, lines, o + 1);
      FirstInTail(g, lines, token, o + 2, i);
      assert IsFound(g, lines, token, i);
    }
  }

  lemma {:induction false} ScanOutside(g: Grammar, lines: seq<string>, token: string, index: nat, i: nat)
    ensures Scan(g, lines, token, false, index) == Some(index + i) <==> IsFound(g, lines, token, i)
  {
    if lines != [] && i > 0 {
      if g.opens(lines[0]) {
        ScanInBlock(g, lines[1..], token, index + 1, i - 1);
        FirstInTail(g, lines, token, 1, i);
        assert IsOpening(g, lines, 0);
        assert forall o: nat :: IsOpening(g, lines, o) ==> o == 0;
      } else {
        ScanOutside(g, lines[1..], token, index + 1, i - 1);
        FoundInTail(g, lines, token, i);
      }
    }
  }

  /** A host's directive is found exactly where it is the first of that host in the block the first opening line opens. */
  lemma LocatesIff(g: Grammar, lines: seq<string>, token: string, i: nat, m: Membership)
    ensures Locate(g, lines, token) == Some((i, m)) <==>
              IsFound(g, lines, token, i) && m == g.stated(lines[i])
  {
    ScanOutside(g, lines, token, 0, i);
  }
  // ---------------------------------------------------------------------------
  // The shape of a line, for any class of white space

  /** A line is a keyword and a body, with white space before, between and after. */
  ghost predicate IsLaid(raw: string, key: string, pad: string, gap: string, body: string, end: string, w: char -> bool) {
    && raw == pad + key + gap + body + end
    && AllIn(pad, w) && AllIn(gap, w) && AllIn(end, w)
    && body != [] && !w(body[0]) && !w(body[|body| - 1])
  }

  ghost predicate HasBody(raw: string, key: string, body: string, w: char -> bool) {
    exists pad, gap, end :: IsLaid(raw, key, pad, gap, body, end, w)
  }

  lemma LaidIsTrimmed(raw: string, key: string, pad: string, gap: string, body: string, end: string, w: char -> bool)
    requires IsLaid(raw, key, pad, gap, body, end, w) && IsWord(key, w)
    ensures var line := Trim(raw, w); StartsWith(line, key) && Trim(line[|key|..], w) == body
  {
    var line := key + gap + body;
    assert raw == pad + line + end;
    assert line[0] == key[0] && line[|line| - 1] == body[|body| - 1];
    TrimAt(pad, line, end, w);
    assert line[..|key|] == key && line[|key|..] == gap + body + [];
    TrimAt(gap, body, [], w);
  }

  /** A text is its trimmed body between its paddings. */
  lemma TrimParts(s: string, w: char -> bool) returns (left: string, right: string)
    ensures s == left + Trim(s, w) + right && AllIn(left, w) && AllIn(right, w)
  {
    left := TrimStartParts(s, w);
    right := TrimEndParts(TrimStart(s, w), w);
    Assoc(left, Trim(s, w), right);
  }

  lemma TrimmedIsLaid(raw: string, key: string, w: char -> bool)
    requires var line := Trim(raw, w); StartsWith(line, key) && Trim(line[|key|..], w) != []
    ensures HasBody(raw, key, Trim(Trim(raw, w)[|key|..], w), w)
  {
    var line := Trim(raw, w);
    var pad, end := TrimParts(raw, w);
    LineIsLaid(raw, line, key, pad, end, w);
  }

  lemma LineIsLaid(raw: string, line: string, key: string, pad: string, end: string, w: char -> bool)
    requires raw == pad + line + end && AllIn(pad, w) && AllIn(end, w) && StartsWith(line, key) && Trim(line[|key|..], w) != []
    ensures HasBody(raw, key, Trim(line[|key|..], w), w)
  {
    var rest := line[|key|..];
    var gap, none := TrimParts(rest, w);
    TrimEnds(rest, w);
    assert line == key + rest;
    Laid(raw, line, key, pad, rest, gap, Trim(rest, w), none, end, w);
  }

  lemma Laid(raw: string, line: string, key: string, pad: string, rest: string, gap: string, body: string, none: string, end: string, w: char -> bool)
    requires raw == pad + line + end && line == key + rest && rest == gap + body + none
    requires AllIn(pad, w) && AllIn(gap, w) && AllIn(none, w) && AllIn(end, w)
    requires body != [] && !w(body[0]) && !w(body[|body| - 1])
    ensures HasBody(raw, key, body, w)
  {
    assert raw == pad + key + gap + body + (none + end);
    assert IsLaid(raw, key, pad, gap, body, none + end, w);
  }

  /** What a line holds after a keyword, read off its shape. */
  lemma BodyIff(raw: string, key: string, body: string, w: char -> bool)
    requires IsWord(key, w)
    ensures HasBody(raw, key, body, w) <==>
              var line := Trim(raw, w); StartsWith(line, key) && Trim(line[|key|..], w) == body && body != []
  {
    if pad, gap, end :| IsLaid(raw, key, pad, gap, body, end, w) {
      LaidIsTrimmed(raw, key, pad, gap, body, end, w);
    }
    var line := Trim(raw, w);
    if StartsWith(line, key) && Trim(line[|key|..], w) == body && body != [] {
      TrimmedIsLaid(raw, key, w);
    }
  }

  ghost predicate BeginsWithWord(body: string, word: string, w: char -> bool) {
    IsWord(word, w) && word <= body && (body == word || w(body[|word|]))
  }

  lemma FirstWordIff(body: string, word: string, w: char -> bool)
    requires body != [] && !w(body[0])
    ensures Words(body, w) != []
    ensures Words(body, w)[0] == word <==> BeginsWithWord(body, word, w)
  {
    var k := Find(body, w);
    assert TrimStart(body, w) == body;
    assert Words(body, w)[0] == body[..k];
    if BeginsWithWord(body, word, w) {
      assert forall i :: 0 <= i < |word| ==> body[i] == word[i];
      FindAt(body, w, |word|);
    }
  }

  // ---------------------------------------------------------------------------
  // Opening and closing lines

  const UPSTREAM: string := "upstream"

  /** A line that opens the upstream: the keyword, the name as a word, and a brace that does not begin the name. */
  ghost predicate OpensBlock(raw: string, upstream: string) {
    exists body :: HasBody(raw, UPSTREAM, body, IsWhite) && NamesBlock(body, upstream, IsWhite)
  }

  ghost predicate NamesBlock(body: string, upstream: string, w: char -> bool) {
    BeginsWithWord(body, upstream, w) && body[0] != '{' && '{' in body
  }

  lemma UpstreamIsWord()
    ensures IsWord(UPSTREAM, IsWhite) && '{' !in UPSTREAM && !IsWhite('{')
  {
  }

  lemma BraceInBody(line: string, key: string, w: char -> bool)
    requires StartsWith(line, key) && '{' !in key && !w('{')
    ensures '{' in line <==> '{' in Trim(line[|key|..], w)
  {
    var gap, end := TrimParts(line[|key|..], w);
    assert line == key + (gap + Trim(line[|key|..], w) + end);
    assert '{' !in gap && '{' !in end;
  }

  /** What follows the keyword names the block, in the words of the scan and by its shape. */
  lemma NamesIff(rest: string, upstream: string, w: char -> bool)
    requires rest != [] ==> !w(rest[0])
    ensures !StartsWith(rest, "{") && Words(rest, w) != [] && Words(rest, w)[0] == upstream && '{' in rest
            <==> rest != [] && NamesBlock(rest, upstream, w)
  {
    if rest != [] {
      FirstWordIff(rest, upstream, w);
      assert StartsWith(rest, "{") <==> rest[0] == '{';
    }
  }

  lemma OpensIff(raw: string, upstream: string)
    ensures Opens(Trim(raw, IsWhite), upstream) <==> OpensBlock(raw, upstream)
  {
    UpstreamIsWord();
    var line := Trim(raw, IsWhite);
    if StartsWith(line, UPSTREAM) {
      var rest := Trim(line[|UPSTREAM|..], IsWhite);
      TrimEnds(line[|UPSTREAM|..], IsWhite);
      BraceInBody(line, UPSTREAM, IsWhite);
      BodyIff(raw, UPSTREAM, rest, IsWhite);
      NamesIff(rest, upstream, IsWhite);
    }
    if body :| HasBody(raw, UPSTREAM, body, IsWhite) && NamesBlock(body, upstream, IsWhite) {
      BodyIff(raw, UPSTREAM, body, IsWhite);
    }
  }

  /** A line that closes a block: a brace, with white space before it and anything after it. */
  ghost predicate ClosesBlock(raw: string) {
    exists pad, rest :: IsBraced(raw, pad, rest, IsWhite)
  }

  ghost predicate IsBraced(raw: string, pad: string, rest: string, w: char -> bool) {
    raw == pad + "}" + rest && AllIn(pad, w)
  }

  lemma BracedStarts(raw: string, pad: string, rest: string, w: char -> bool)
    requires IsBraced(raw, pad, rest, w) && !w('}')
    ensures StartsWith(Trim(raw, w), "}")
  {
    Assoc(pad, "}", rest);
    TrimStartAt(pad, "}" + rest, w);
    var start := "}" + rest;
    var end := TrimEndParts(start, w);
    BraceSurvives(start, TrimEnd(start, w), end, w);
  }

  lemma BraceSurvives(start: string, line: string, end: string, w: char -> bool)
    requires start == line + end && AllIn(end, w) && start != [] && start[0] == '}' && !w('}')
    ensures StartsWith(line, "}")
  {
    assert line == [] ==> start == end;
    assert line[0] == start[0];
    assert line[..1] == "}";
  }

  lemma ClosesIff(raw: string)
    ensures StartsWith(Trim(raw, IsWhite), "}") <==> ClosesBlock(raw)
  {
    var line := Trim(raw, IsWhite);
    var pad, end := TrimParts(raw, IsWhite);
    if StartsWith(line, "}") {
      assert line == "}" + line[1..];
      assert raw == pad + "}" + (line[1..] + end);
      assert IsBraced(raw, pad, line[1..] + end, IsWhite);
    }
    if left, rest :| IsBraced(raw, left, rest, IsWhite) {
      BracedStarts(raw, left, rest, IsWhite);
    }
  }
  // ---------------------------------------------------------------------------
  // A host's own directive

  predicate EndsHost(c: char) {
    IsSep(c) || c == ':'
  }

  /** A `server` directive of the host: its address up to the first colon is the token. */
  ghost predicate ServesHost(raw: string, token: string) {
    exists body :: HasBody(raw, SERVER, body, IsWhite) && Addresses(body, token)
  }

  ghost predicate Addresses(body: string, token: string) {
    && body != [] && !IsSep(body[0])
    && token <= body && NoneIn(token, EndsHost) && (body == token || EndsHost(body[|token|]))
  }

  lemma FirstPiece(s: string, p: char -> bool)
    ensures Split(s, p)[0] == s[..Find(s, p)]
  {
  }

  lemma AddressesIff(body: string, token: string)
    requires body != []
    ensures var address := Split(body, IsSep)[0];
            address != [] && Split(address, IsColon)[0] == token <==> Addresses(body, token)
  {
    var n := Find(body, IsSep);
    FirstPiece(body, IsSep);
    FirstPiece(body[..n], IsColon);
    HostEnds(body);
    AddressesOne(body, token);
  }

  /** The host ends at the first colon of the address, or with the address. */
  lemma HostEnds(body: string)
    ensures var address := body[..Find(body, IsSep)];
            address[..Find(address, IsColon)] == body[..Find(body, EndsHost)]
  {
    var address := body[..Find(body, IsSep)];
    FindAt(body, EndsHost, Find(address, IsColon));
  }

  lemma AddressesOne(body: string, token: string)
    requires body != []
    ensures Addresses(body, token) <==> !IsSep(body[0]) && body[..Find(body, EndsHost)] == token
  {
    if Addresses(body, token) {
      assert forall i :: 0 <= i < |token| ==> body[i] == token[i];
      FindAt(body, EndsHost, |token|);
    }
  }

  lemma ServesIff(raw: string, token: string)
    ensures HostOf(Trim(raw, IsWhite)) == Some(token) <==> ServesHost(raw, token)
  {
    ServerNotWhite();
    var line := Trim(raw, IsWhite);
    if StartsWith(line, SERVER) {
      var rest := Trim(line[|SERVER|..], IsWhite);
      BodyIff(raw, SERVER, rest, IsWhite);
      if rest == [] {
        SplitNone([], IsSep);
      } else {
        AddressesIff(rest, token);
      }
    }
    if body :| HasBody(raw, SERVER, body, IsWhite) && Addresses(body, token) {
      BodyIff(raw, SERVER, body, IsWhite);
    }
  }

  // ---------------------------------------------------------------------------
  // What a directive states

  /** A piece begins at the start of a text and after each separator. */
  predicate Begins(s: string, i: nat, p: char -> bool) {
    i <= |s| && (i == 0 || p(s[i - 1]))
  }

  /** It runs to the next separator, or to the end. */
  function PieceAt(s: string, i: nat, p: char -> bool): string
    requires i <= |s|
  {
    s[i..][..Find(s[i..], p)]
  }

  lemma PieceIsLongest(s: string, i: nat, p: char -> bool)
    requires i <= |s|
    ensures var t := PieceAt(s, i, p);
            i + |t| <= |s| && t == s[i..i + |t|] && (i + |t| == |s| || p(s[i + |t|])) && NoneIn(t, p)
  {
  }

  ghost predicate HasPiece(s: string, t: string, p: char -> bool) {
    exists i: nat :: IsPieceAt(s, i, t, p)
  }

  predicate IsPieceAt(s: string, i: nat, t: string, p: char -> bool) {
    Begins(s, i, p) && PieceAt(s, i, p) == t
  }

  /** After the first separator the pieces are those of what follows it. */
  lemma PieceBefore(s: string, i: nat, p: char -> bool)
    requires Begins(s, i, p) && i > 0
    ensures var d := Find(s, p) + 1; d <= i && Begins(s[d..], i - d, p) && PieceAt(s[d..], i - d, p) == PieceAt(s, i, p)
  {
    var d := Find(s, p) + 1;
    TailsAgree(s, d, i);
  }

  lemma PieceAfter(s: string, d: nat, i: nat, p: char -> bool)
    requires 0 < d <= |s| && p(s[d - 1]) && Begins(s[d..], i, p)
    ensures Begins(s, i + d, p) && PieceAt(s, i + d, p) == PieceAt(s[d..], i, p)
  {
    TailsAgree(s, d, i + d);
  }

  lemma TailsAgree(s: string, d: nat, i: nat)
    requires d <= i <= |s|
    ensures s[d..][i - d..] == s[i..]
  {
  }

  lemma PieceAtStart(s: string, p: char -> bool)
    ensures Begins(s, 0, p) && PieceAt(s, 0, p) == s[..Find(s, p)]
  {
    assert s[0..] == s;
  }

  lemma PieceIsLater(s: string, i: nat, t: string, p: char -> bool)
    requires IsPieceAt(s, i, t, p)
    ensures var d := Find(s, p) + 1; s[..d - 1] == t || (d <= |s| && HasPiece(s[d..], t, p))
  {
    PieceAtStart(s, p);
    if i > 0 {
      PieceBefore(s, i, p);
      assert IsPieceAt(s[Find(s, p) + 1..], i - Find(s, p) - 1, t, p);
    }
  }

  lemma LaterIsPiece(s: string, t: string, p: char -> bool)
    requires Find(s, p) < |s| && HasPiece(s[Find(s, p) + 1..], t, p)
    ensures HasPiece(s, t, p)
  {
    var d := Find(s, p) + 1;
    var i: nat :| IsPieceAt(s[d..], i, t, p);
    PieceAfter(s, d, i, p);
    assert IsPieceAt(s, i + d, t, p);
  }

  lemma PiecesOfRest(s: string, t: string, p: char -> bool)
    ensures var d := Find(s, p) + 1; HasPiece(s, t, p) <==> s[..d - 1] == t || (d <= |s| && HasPiece(s[d..], t, p))
  {
    var d := Find(s, p) + 1;
    if i: nat :| IsPieceAt(s, i, t, p) {
      PieceIsLater(s, i, t, p);
    }
    PieceAtStart(s, p);
    assert s[..d - 1] == t ==> IsPieceAt(s, 0, t, p);
    if d <= |s| && HasPiece(s[d..], t, p) {
      LaterIsPiece(s, t, p);
    }
  }

  /** Splitting a text yields exactly its pieces. */
  lemma {:induction false} PiecesIff(s: string, t: string, p: char -> bool)
    ensures t in Split(s, p) <==> HasPiece(s, t, p)
    decreases |s|
  {
    var d := Find(s, p) + 1;
    PiecesOfRest(s, t, p);
    assert s[..|s|] == s;
    if d <= |s| {
      PiecesIff(s[d..], t, p);
    }
  }

  /** The weight a piece states. */
  function WeightOf(t: string): Option<nat> {
    if StartsWith(t, WEIGHT) then ParseUint(t[|WEIGHT|..], U32_MAX) else None
  }

  ghost predicate Says(s: string, i: nat, says: string -> Option<nat>, p: char -> bool) {
    Begins(s, i, p) && says(PieceAt(s, i, p)).Some?
  }

  /** The first piece that says a number says this one. */
  ghost predicate SaysFirst(s: string, number: Option<nat>, says: string -> Option<nat>, p: char -> bool) {
    if number.None? then forall i: nat :: !Says(s, i, says, p)
    else exists i: nat :: IsFirstToSay(s, i, number, says, p)
  }

  ghost predicate IsFirstToSay(s: string, i: nat, number: Option<nat>, says: string -> Option<nat>, p: char -> bool) {
    Says(s, i, says, p) && says(PieceAt(s, i, p)) == number && forall a: nat :: Says(s, a, says, p) ==> i <= a
  }

  function FirstOf(parts: seq<string>, says: string -> Option<nat>): Option<nat> {
    if parts == [] then None else if says(parts[0]).Some? then says(parts[0]) else FirstOf(parts[1..], says)
  }

  lemma {:induction false} WeightIsFirst(parts: seq<string>)
    ensures WeightIn(parts) == FirstOf(parts, WeightOf)
  {
    if parts != [] {
      WeightIsFirst(parts[1..]);
    }
  }

  lemma FirstOfCons(parts: seq<string>, t: string, rest: seq<string>, says: string -> Option<nat>)
    requires parts == [t] + rest
    ensures FirstOf(parts, says) == if says(t).Some? then says(t) else FirstOf(rest, says)
  {
    assert parts[0] == t && parts[1..] == rest;
  }

  lemma SplitIsCons(s: string, p: char -> bool)
    ensures var k := Find(s, p); Split(s, p) == [s[..k]] + (if k == |s| then [] else Split(s[k + 1..], p))
  {
    var k := Find(s, p);
    if k == |s| {
      SplitNone(s, p);
      assert s[..k] == s;
    } else {
      TakenApart(s, k);
      SplitAt(s[..k], s[k], s[k + 1..], p);
    }
  }

  lemma FirstOfSplit(s: string, says: string -> Option<nat>, p: char -> bool)
    ensures var k := Find(s, p);
            FirstOf(Split(s, p), says)
            == if says(s[..k]).Some? then says(s[..k]) else if k == |s| then None else FirstOf(Split(s[k + 1..], p), says)
  {
    var k := Find(s, p);
    SplitIsCons(s, p);
    FirstOfCons(Split(s, p), s[..k], if k == |s| then [] else Split(s[k + 1..], p), says);
  }

  lemma SaysAtStart(s: string, says: string -> Option<nat>, p: char -> bool)
    requires says(s[..Find(s, p)]).Some?
    ensures SaysFirst(s, says(s[..Find(s, p)]), says, p)
  {
    PieceAtStart(s, p);
    assert IsFirstToSay(s, 0, says(s[..Find(s, p)]), says, p);
  }

  lemma SaysLater(s: string, says: string -> Option<nat>, p: char -> bool, i: nat)
    requires says(s[..Find(s, p)]).None? && Says(s, i, says, p)
    ensures SaysIn(s, Find(s, p) + 1, i, says, p)
  {
    PieceAtStart(s, p);
    PieceBefore(s, i, p);
  }

  lemma {:induction false} SaysFirstIs(s: string, says: string -> Option<nat>, p: char -> bool)
    ensures SaysFirst(s, FirstOf(Split(s, p), says), says, p)
    decreases |s|
  {
    var d := Find(s, p) + 1;
    FirstOfSplit(s, says, p);
    if says(s[..d - 1]).Some? {
      SaysAtStart(s, says, p);
    } else {
      forall i: nat | Says(s, i, says, p) ensures SaysIn(s, d, i, says, p) {
        SaysLater(s, says, p, i);
      }
      if d <= |s| {
        SaysFirstIs(s[d..], says, p);
        SaysFirstOfRest(s, d, FirstOf(Split(s[d..], p), says), says, p);
      }
    }
  }

  ghost predicate SaysIn(s: string, d: nat, i: nat, says: string -> Option<nat>, p: char -> bool) {
    d <= i && d <= |s| && Says(s[d..], i - d, says, p)
  }

  lemma SaysFirstOfRest(s: string, d: nat, number: Option<nat>, says: string -> Option<nat>, p: char -> bool)
    requires 0 < d <= |s| && p(s[d - 1]) && SaysFirst(s[d..], number, says, p)
    requires forall i: nat :: Says(s, i, says, p) ==> SaysIn(s, d, i, says, p)
    ensures SaysFirst(s, number, says, p)
  {
    if number.Some? {
      var i: nat :| IsFirstToSay(s[d..], i, number, says, p);
      PieceAfter(s, d, i, p);
      assert IsFirstToSay(s, i + d, number, says, p);
    }
  }

  /** At most one number is the first. */
  lemma SaysOneFirst(s: string, a: Option<nat>, b: Option<nat>, says: string -> Option<nat>, p: char -> bool)
    requires SaysFirst(s, a, says, p) && SaysFirst(s, b, says, p)
    ensures a == b
  {
    if a.Some? && b.Some? {
      var i: nat :| IsFirstToSay(s, i, a, says, p);
      var j: nat :| IsFirstToSay(s, j, b, says, p);
      assert i == j;
    }
  }

  /** What a directive states: out of the pool exactly when a piece of it is `down`, and its first weight. */
  ghost predicate Declares(raw: string, m: Membership) {
    exists body :: HasBody(raw, SERVER, body, IsWhite) && DeclaresIn(body, m)
  }

  ghost predicate DeclaresIn(body: string, m: Membership) {
    && m.state == (if HasPiece(body, DOWN, IsSep) then Removed else InPool)
    && SaysFirst(body, m.weight, WeightOf, IsSep)
  }

  lemma ReadsIff(body: string, m: Membership)
    ensures m == Reads(Split(body, IsSep)) <==> DeclaresIn(body, m)
  {
    var read := Reads(Split(body, IsSep));
    PiecesIff(body, DOWN, IsSep);
    WeightIsFirst(Split(body, IsSep));
    SaysFirstIs(body, WeightOf, IsSep);
    if DeclaresIn(body, m) {
      SaysOneFirst(body, m.weight, read.weight, WeightOf, IsSep);
    }
  }

  lemma DeclaresIff(raw: string, token: string, m: Membership)
    requires ServesHost(raw, token)
    ensures m == StatedBy(raw) <==> Declares(raw, m)
  {
    ServerNotWhite();
    var body :| HasBody(raw, SERVER, body, IsWhite) && Addresses(body, token);
    BodyIff(raw, SERVER, body, IsWhite);
    ReadsIff(body, m);
    if other :| HasBody(raw, SERVER, other, IsWhite) && DeclaresIn(other, m) {
      BodyIff(raw, SERVER, other, IsWhite);
    }
  }

  // ---------------------------------------------------------------------------
  // What is found

  /** Line `o` is the first that opens the upstream. */
  ghost predicate IsOpener(lines: seq<string>, upstream: string, o: nat) {
    o < |lines| && OpensBlock(lines[o], upstream) && forall j :: 0 <= j < o ==> !OpensBlock(lines[j], upstream)
  }

  /** Line `i` is the host's first after `o`, with no closing line from `o` to it. */
  ghost predicate IsOwn(lines: seq<string>, token: string, o: nat, i: nat) {
    && o < i < |lines| && ServesHost(lines[i], token)
    && (forall j :: o < j < i ==> !ServesHost(lines[j], token))
    && (forall j :: o < j < i ==> !ClosesBlock(lines[j]))
  }

  lemma ServingIsOpen(raw: string, token: string)
    requires ServesHost(raw, token)
    ensures !ClosesBlock(raw)
  {
    ServesIff(raw, token);
    ClosesIff(raw);
    ServerIsNoBrace(Trim(raw, IsWhite));
  }

  lemma OpenerIff(upstream: string, lines: seq<string>, o: nat)
    ensures IsOpening(Nginx(upstream), lines, o) <==> IsOpener(lines, upstream, o)
  {
    forall j | 0 <= j < |lines| ensures Nginx(upstream).opens(lines[j]) <==> OpensBlock(lines[j], upstream) {
      OpensIff(lines[j], upstream);
    }
  }

  lemma OwnIff(upstream: string, lines: seq<string>, token: string, o: nat, i: nat)
    ensures IsFirstFrom(Nginx(upstream), lines, token, o + 1, i) <==> IsOwn(lines, token, o, i)
  {
    forall j | 0 <= j < |lines| ensures LineReads(Nginx(upstream), lines[j], token) {
      ClosesIff(lines[j]);
      ServesIff(lines[j], token);
    }
    forall j | 0 <= j < |lines| && ServesHost(lines[j], token) ensures !ClosesBlock(lines[j]) {
      ServingIsOpen(lines[j], token);
    }
    OwnByLines(Nginx(upstream), lines, token, o, i);
  }

  ghost predicate LineReads(g: Grammar, raw: string, token: string) {
    (g.closes(raw) <==> ClosesBlock(raw)) && (g.host(raw) == Some(token) <==> ServesHost(raw, token))
  }

  lemma OwnByLines(g: Grammar, lines: seq<string>, token: string, o: nat, i: nat)
    requires forall j :: 0 <= j < |lines| ==> LineReads(g, lines[j], token)
    requires forall j :: 0 <= j < |lines| && ServesHost(lines[j], token) ==> !ClosesBlock(lines[j])
    ensures IsFirstFrom(g, lines, token, o + 1, i) <==> IsOwn(lines, token, o, i)
  {
  }

  /**
   What `locate` finds, by the shape of the lines and their positions. It finds the
   host on line `i` with membership `m` if and only if the first line that opens the
   named upstream is before it, it is the first directive of the host after that
   line, no line between them closes the block, and `m` is what the directive
   declares. Otherwise it finds nothing.
   */
  lemma NginxLocatesIff(upstream: string, lines: seq<string>, token: string, i: nat, m: Membership)
    ensures Locate(Nginx(upstream), lines, token) == Some((i, m)) <==>
              exists o: nat :: IsOpener(lines, upstream, o) && IsOwn(lines, token, o, i) && Declares(lines[i], m)
  {
    LocatesIff(Nginx(upstream), lines, token, i, m);
    FoundIff(upstream, lines, token, i);
    if i < |lines| && ServesHost(lines[i], token) {
      DeclaresIff(lines[i], token, m);
      assert Nginx(upstream).stated(lines[i]) == StatedBy(lines[i]);
    }
  }

  lemma FoundIff(upstream: string, lines: seq<string>, token: string, i: nat)
    ensures IsFound(Nginx(upstream), lines, token, i) <==> exists o: nat :: IsOpener(lines, upstream, o) && IsOwn(lines, token, o, i)
  {
    forall o: nat
      ensures IsOpening(Nginx(upstream), lines, o) <==> IsOpener(lines, upstream, o)
      ensures IsFirstFrom(Nginx(upstream), lines, token, o + 1, i) <==> IsOwn(lines, token, o, i)
    {
      OpenerIff(upstream, lines, o);
      OwnIff(upstream, lines, token, o, i);
    }
    FoundByPositions(Nginx(upstream), upstream, lines, token, i);
  }

  lemma FoundByPositions(g: Grammar, upstream: string, lines: seq<string>, token: string, i: nat)
    requires forall o: nat :: IsOpening(g, lines, o) <==> IsOpener(lines, upstream, o)
    requires forall o: nat {:trigger IsOwn(lines, token, o, i)} :: IsFirstFrom(g, lines, token, o + 1, i) <==> IsOwn(lines, token, o, i)
    ensures IsFound(g, lines, token, i) <==> exists o: nat :: IsOpener(lines, upstream, o) && IsOwn(lines, token, o, i)
  {
    if o: nat :| IsOpening(g, lines, o) && IsFirstFrom(g, lines, token, o + 1, i) {
      assert IsOwn(lines, token, o, i);
    }
  }
}
