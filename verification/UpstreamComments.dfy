/**
 Lines nginx reads differently from the adapter. nginx drops what follows a `#` that
 begins a word, and ends a directive at its `;` wherever that stands; the adapter
 edits the whole line. This module says what a drain then does.
 */
module UpstreamComments {
  import opened Basics
  import opened Text
  import opened Upstream

  /** What separates the words of a directive for nginx. */
  predicate IsBreak(c: char) {
    IsWhite(c) || c == ';'
  }

  predicate IsComment(t: string) {
    t != [] && t[0] == '#'
  }

  predicate HasComment(ts: seq<string>) {
    exists i | 0 <= i < |ts| :: IsComment(ts[i])
  }

  /** The words before the comment. */
  function Live(ts: seq<string>): seq<string> {
    if ts == [] || IsComment(ts[0]) then [] else [ts[0]] + Live(ts[1..])
  }

  /** nginx's own whitespace. */
  predicate IsBlank(c: char) {
    c == ' ' || c == '\t' || c == '\r' || c == '\n'
  }

  predicate IsSemi(c: char) {
    c == ';'
  }

  /** The words nginx reads of the first directive of a line: up to its `;`, or to a comment. */
  function DirectiveWords(raw: string): seq<string> {
    Live(Words(raw[..Find(raw, IsSemi)], IsBlank))
  }

  /** A line without whitespace that nginx takes for part of a word. */
  ghost predicate IsPlainLine(raw: string) {
    forall i :: 0 <= i < |raw| ==> (IsWhite(raw[i]) <==> IsBlank(raw[i]))
  }

  lemma {:induction false} LiveConcat(a: seq<string>, b: seq<string>)
    ensures Live(a + b) == if HasComment(a) then Live(a) else a + Live(b)
  {
    if a == [] {
      assert a + b == b && a + Live(b) == Live(b);
    } else {
      var x, rest := a[0], a[1..];
      assert a == [x] + rest;
      CommentConcat([x], rest);
      assert HasComment([x]) <==> IsComment(x);
      LiveConcat(rest, b);
      LiveCons(x, rest + b);
      LiveCons(x, rest);
      Assoc([x], rest, b);
      Assoc([x], rest, Live(b));
    }
  }

  lemma LiveCons(x: string, rest: seq<string>)
    ensures Live([x] + rest) == if IsComment(x) then [] else [x] + Live(rest)
  {
    assert ([x] + rest)[1..] == rest;
  }

  lemma CommentConcat(a: seq<string>, b: seq<string>)
    ensures HasComment(a + b) <==> HasComment(a) || HasComment(b)
  {
    if i :| 0 <= i < |a| && IsComment(a[i]) {
      assert (a + b)[i] == a[i];
    }
    if i :| 0 <= i < |b| && IsComment(b[i]) {
      assert (a + b)[|a| + i] == b[i];
    }
    if i :| 0 <= i < |a + b| && IsComment((a + b)[i]) {
      assert i < |a| ==> IsComment(a[i]);
      assert i >= |a| ==> IsComment(b[i - |a|]);
    }
  }

  // ---------------------------------------------------------------------------
  // Words of words

  lemma {:induction false} WordsApart(a: string, c: char, b: string, w: char -> bool)
    requires w(c)
    ensures Words(a + [c] + b, w) == Words(a, w) + Words(b, w)
    decreases |a|
  {
    if TrimStart(a, w) == [] {
      var left := TrimStartParts(a, w);
      BlankApart(left, a, c, b, w);
    } else {
      var pad, head, rest := FirstWord(a, w);
      WordsApart(rest, c, b, w);
      ApartStep(pad, head, rest, c, b, w);
    }
  }

  lemma BlankApart(left: string, a: string, c: char, b: string, w: char -> bool)
    requires a == left + [] && AllIn(left, w) && w(c)
    ensures Words(a + [c] + b, w) == Words(a, w) + Words(b, w)
  {
    assert a == left && AllIn(a + [c], w);
    WordsOfPadding(a, w);
    WordsSkip(a + [c], b, w);
    assert [] + Words(b, w) == Words(b, w);
  }

  lemma ApartStep(pad: string, head: string, rest: string, c: char, b: string, w: char -> bool)
    requires AllIn(pad, w) && IsWord(head, w) && (rest == [] || w(rest[0])) && w(c)
    requires Words(rest + [c] + b, w) == Words(rest, w) + Words(b, w)
    ensures Words(pad + head + rest + [c] + b, w) == Words(pad + head + rest, w) + Words(b, w)
  {
    var tail := rest + [c] + b;
    assert tail[0] == if rest == [] then c else rest[0];
    WordsStep(pad, head, rest, w);
    WordsStep(pad, head, tail, w);
    Assoc(pad + head, rest, [c]);
    Assoc(pad + head, rest + [c], b);
    Assoc([head], Words(rest, w), Words(b, w));
  }

  /** The words of each word, one after the other. */
  function Flat(ws: seq<string>, w: char -> bool): seq<string> {
    if ws == [] then [] else Words(ws[0], w) + Flat(ws[1..], w)
  }

  lemma {:induction false} FlatConcat(a: seq<string>, b: seq<string>, w: char -> bool)
    ensures Flat(a + b, w) == Flat(a, w) + Flat(b, w)
  {
    if a == [] {
      assert a + b == b;
    } else {
      assert (a + b)[1..] == a[1..] + b;
      FlatConcat(a[1..], b, w);
    }
  }

  lemma FlatCons(x: string, rest: seq<string>, w: char -> bool)
    ensures Flat([x] + rest, w) == Words(x, w) + Flat(rest, w)
  {
    assert ([x] + rest)[1..] == rest;
  }

  /** Splitting at a wider class is splitting the words again. */
  lemma {:induction false} WordsRefine(s: string, v: char -> bool, w: char -> bool)
    requires forall c :: v(c) ==> w(c)
    ensures Words(s, w) == Flat(Words(s, v), w)
    decreases |s|
  {
    if TrimStart(s, v) == [] {
      var left := TrimStartParts(s, v);
      assert s == left && AllIn(s, w);
      WordsOfPadding(s, w);
    } else {
      var pad, head, rest := FirstWord(s, v);
      WordsRefine(rest, v, w);
      RefineStep(pad, head, rest, v, w);
    }
  }

  lemma RefineStep(pad: string, head: string, rest: string, v: char -> bool, w: char -> bool)
    requires (forall c :: v(c) ==> w(c)) && AllIn(pad, v) && IsWord(head, v) && (rest == [] || v(rest[0]))
    requires Words(rest, w) == Flat(Words(rest, v), w)
    ensures Words(pad + head + rest, w) == Flat(Words(pad + head + rest, v), w)
  {
    WordsStep(pad, head, rest, v);
    FlatCons(head, Words(rest, v), w);
    Assoc(pad, head, rest);
    WordsSkip(pad, head + rest, w);
    HeadAndRest(head, rest, w);
  }

  lemma HeadAndRest(head: string, rest: string, w: char -> bool)
    requires rest == [] || w(rest[0])
    ensures Words(head + rest, w) == Words(head, w) + Words(rest, w)
  {
    if rest == [] {
      assert head + rest == head;
    } else {
      var more := rest[1..];
      assert rest == [rest[0]] + more && head + rest == head + [rest[0]] + more;
      WordsApart(head, rest[0], more, w);
      WordsSkip([rest[0]], more, w);
    }
  }

  // ---------------------------------------------------------------------------
  // What nginx reads before and after

  lemma BreakIsWider()
    ensures forall c :: IsWhite(c) ==> IsBreak(c)
  {
  }

  /** The words nginx splits a line into are those of the words the rewrite works on. */
  lemma WordsBefore(raw: string)
    ensures Words(raw, IsBreak) == Flat(BodyWords(raw), IsBreak)
  {
    BreakIsWider();
    var line := Trim(raw, IsWhite);
    TrimKeepsWords(raw, IsWhite, IsBreak);
    var body := StripSuffix(line, ";");
    if EndsWith(line, ";") {
      assert line == body + ";";
      WordsPadRight(body, ";", IsBreak);
    }
    TrimEndKeepsWords(body, IsWhite, IsBreak);
    WordsRefine(TrimEnd(body, IsWhite), IsWhite, IsBreak);
  }

  lemma OutIsWords(raw: string, down: bool, out: seq<string>)
    requires out == Without(BodyWords(raw), DOWN) + (if down then [DOWN] else [])
    ensures forall i :: 0 <= i < |out| ==> IsWord(out[i], IsWhite)
  {
    var ws := BodyWords(raw);
    WordsAreWords(TrimEnd(StripSuffix(Trim(raw, IsWhite), ";"), IsWhite), IsWhite);
    WithoutIs(ws, DOWN);
    DownIsPlain();
    forall i | 0 <= i < |out| ensures IsWord(out[i], IsWhite) {
      assert out[i] in ws || out[i] == DOWN;
    }
  }

  // ---------------------------------------------------------------------------
  // The directive among the words

  /** The words up to the first `;`. */
  function Cut(ws: seq<string>): seq<string> {
    if ws == [] then []
    else
      var k := Find(ws[0], IsSemi);
      if k == |ws[0]| then [ws[0]] + Cut(ws[1..])
      else if k == 0 then []
      else [ws[0][..k]]
  }

  lemma CutCons(x: string, rest: seq<string>)
    ensures var k := Find(x, IsSemi);
            Cut([x] + rest) == if k == |x| then [x] + Cut(rest) else if k == 0 then [] else [x[..k]]
  {
    assert ([x] + rest)[1..] == rest;
  }

  /** The words before the first `;` of a text are its words, cut there. */
  lemma {:induction false} HeadWords(s: string, v: char -> bool)
    requires !v(';')
    ensures Words(s[..Find(s, IsSemi)], v) == Cut(Words(s, v))
    decreases |s|
  {
    if TrimStart(s, v) == [] {
      var left := TrimStartParts(s, v);
      assert s == left;
      WordsOfPadding(s, v);
      WordsOfPadding(s[..Find(s, IsSemi)], v);
    } else {
      var pad, head, rest := FirstWord(s, v);
      WordsStep(pad, head, rest, v);
      CutCons(head, Words(rest, v));
      var k := Find(head, IsSemi);
      if k == |head| {
        HeadWords(rest, v);
        var j := Find(rest, IsSemi);
        HeadBeyond(s, pad, head, rest, j, v);
        WordsStep(pad, head, rest[..j], v);
      } else {
        HeadInside(s, pad, head, rest, k, v);
        WordsSkip(pad, head[..k], v);
        WordsOfOne(head[..k], v);
      }
    }
  }

  lemma HeadBeyond(s: string, pad: string, head: string, rest: string, j: nat, v: char -> bool)
    requires s == pad + head + rest && AllIn(pad, v) && !v(';') && NoneIn(head, IsSemi) && j == Find(rest, IsSemi)
    ensures s[..Find(s, IsSemi)] == pad + head + rest[..j]
  {
    var n := |pad| + |head|;
    assert forall i :: 0 <= i < |pad| ==> s[i] == pad[i] && v(pad[i]);
    assert forall i :: |pad| <= i < n ==> s[i] == head[i - |pad|];
    assert forall i :: n <= i < |s| ==> s[i] == rest[i - n];
    FindAt(s, IsSemi, n + j);
  }

  lemma HeadInside(s: string, pad: string, head: string, rest: string, k: nat, v: char -> bool)
    requires s == pad + head + rest && AllIn(pad, v) && !v(';') && k == Find(head, IsSemi) && k < |head|
    ensures s[..Find(s, IsSemi)] == pad + head[..k]
  {
    assert forall i :: 0 <= i < |pad| ==> s[i] == pad[i] && v(pad[i]);
    assert forall i :: |pad| <= i <= |pad| + k ==> s[i] == head[i - |pad|];
    FindAt(s, IsSemi, |pad| + k);
  }

  /** A `;` at the end does not change where the first one cuts. */
  lemma EndDoesNotCut(s: string)
    ensures (s + ";")[..Find(s + ";", IsSemi)] == s[..Find(s, IsSemi)]
  {
    var k := Find(s, IsSemi);
    assert forall i :: 0 <= i < |s| ==> (s + ";")[i] == s[i];
    FindAt(s + ";", IsSemi, k);
  }

  lemma CutAtEnd(s: string, v: char -> bool)
    requires !v(';')
    ensures Cut(Words(s + ";", v)) == Cut(Words(s, v))
  {
    HeadWords(s, v);
    HeadWords(s + ";", v);
    EndDoesNotCut(s);
  }

  /** What nginx reads of a line, by the words the rewrite works on. */
  lemma DirectiveBefore(raw: string)
    requires IsPlainLine(raw)
    ensures DirectiveWords(raw) == Live(Cut(BodyWords(raw)))
  {
    var line := Trim(raw, IsWhite);
    var body := StripSuffix(line, ";");
    assert IsPlainLine(raw[..Find(raw, IsSemi)]);
    WordsAgree(raw[..Find(raw, IsSemi)], IsBlank, IsWhite);
    HeadWords(raw, IsWhite);
    TrimKeepsWords(raw, IsWhite, IsWhite);
    if EndsWith(line, ";") {
      assert line == body + ";";
      CutAtEnd(body, IsWhite);
    }
    TrimEndKeepsWords(body, IsWhite, IsWhite);
  }

  lemma DirectiveAfter(raw: string, down: bool)
    requires IsPlainLine(raw)
    ensures DirectiveWords(SetDown(raw, down)) == Live(Cut(Without(BodyWords(raw), DOWN) + (if down then [DOWN] else [])))
  {
    var out := Without(BodyWords(raw), DOWN) + (if down then [DOWN] else []);
    OutIsWords(raw, down, out);
    IndentIsBlank(raw);
    var next := SetDown(raw, down);
    PlainRewrite(raw, out);
    assert IsPlainLine(next[..Find(next, IsSemi)]);
    WordsAgree(next[..Find(next, IsSemi)], IsBlank, IsWhite);
    HeadWords(next, IsWhite);
    RewriteCuts(Indent(raw), out, IsWhite);
  }

  /** The rewritten line has no other whitespace than the old one and its own spaces. */
  lemma PlainRewrite(raw: string, out: seq<string>)
    requires IsPlainLine(raw) && forall i :: 0 <= i < |out| ==> IsWord(out[i], IsWhite)
    ensures IsPlainLine(Indent(raw) + Join(out, " ") + ";")
  {
    var indent, text := Indent(raw), Join(out, " ");
    assert forall i :: 0 <= i < |indent| ==> indent[i] == raw[i];
    forall i | 0 <= i < |out| ensures NoneIn(out[i], IsExotic) {
      forall j | 0 <= j < |out[i]| ensures !IsExotic(out[i][j]) {
      }
    }
    JoinInherits(out, IsExotic);
    var s := indent + text + ";";
    forall i | 0 <= i < |s| ensures IsWhite(s[i]) <==> IsBlank(s[i]) {
      if i < |indent| {
        assert s[i] == raw[i];
      } else if i < |indent| + |text| {
        assert s[i] == text[i - |indent|] && !IsExotic(s[i]);
      }
    }
  }

  predicate IsExotic(c: char) {
    IsWhite(c) && !IsBlank(c)
  }

  lemma RewriteCuts(indent: string, out: seq<string>, v: char -> bool)
    requires !v(';') && v(' ') && AllIn(indent, v) && forall i :: 0 <= i < |out| ==> IsWord(out[i], v)
    ensures Cut(Words(indent + Join(out, " ") + ";", v)) == Cut(out)
  {
    var text := Join(out, " ");
    Assoc(indent, text, ";");
    WordsSkip(indent, text + ";", v);
    CutAtEnd(text, v);
    WordsOfJoin(out, v);
  }

  predicate HasSemi(ws: seq<string>) {
    exists i | 0 <= i < |ws| :: ';' in ws[i]
  }

  lemma HasSemiCons(x: string, rest: seq<string>)
    ensures HasSemi([x] + rest) <==> ';' in x || HasSemi(rest)
  {
    var all := [x] + rest;
    assert all[0] == x && all[1..] == rest;
    if i :| 0 <= i < |rest| && ';' in rest[i] {
      assert all[i + 1] == rest[i];
    }
    if i :| 0 <= i < |all| && ';' in all[i] {
      assert i > 0 ==> rest[i - 1] == all[i];
    }
  }

  /** Among the words: the appended flag is live exactly when no `;` and no comment stands before it. */
  lemma {:induction false} FlagIsLiveIff(ws: seq<string>, flag: string)
    requires flag != [] && NoneIn(flag, IsSemi) && !IsComment(flag)
    requires flag !in Live(Cut(ws))
    ensures flag in Live(Cut(Without(ws, flag) + [flag])) <==> !HasSemi(ws) && !HasComment(ws)
  {
    if ws == [] {
      CutCons(flag, []);
      assert Without(ws, flag) + [flag] == [flag] + [] && Cut([]) == [];
      FindAt(flag, IsSemi, |flag|);
      LiveCons(flag, []);
    } else {
      var x, rest := ws[0], ws[1..];
      assert ws == [x] + rest;
      var kept := Without(rest, flag) + [flag];
      HasSemiCons(x, rest);
      CommentConcat([x], rest);
      assert HasComment([x]) <==> IsComment(x);
      WithoutCons(x, rest, flag);
      CutCons(x, rest);
      SemiIn(x);
      if x == flag {
        LiveCons(x, Cut(rest));
        assert false;
      }
      assert Without(ws, flag) + [flag] == [x] + kept;
      CutCons(x, kept);
      if ';' !in x {
        LiveCons(x, Cut(rest));
        LiveCons(x, Cut(kept));
        if !IsComment(x) {
          FlagIsLiveIff(rest, flag);
        }
      }
    }
  }

  lemma SemiIn(x: string)
    ensures Find(x, IsSemi) == |x| <==> ';' !in x
  {
    if Find(x, IsSemi) == |x| {
      assert forall i :: 0 <= i < |x| ==> !IsSemi(x[i]);
    }
  }

  lemma {:induction false} SemiInWords(s: string, v: char -> bool)
    requires !v(';')
    ensures HasSemi(Words(s, v)) <==> ';' in s
    decreases |s|
  {
    if TrimStart(s, v) == [] {
      var left := TrimStartParts(s, v);
      assert s == left;
      assert forall i :: 0 <= i < |s| ==> v(s[i]);
    } else {
      var pad, head, rest := FirstWord(s, v);
      WordsStep(pad, head, rest, v);
      SemiInWords(rest, v);
      HasSemiCons(head, Words(rest, v));
      SemiInParts(pad, head, rest, v);
    }
  }

  lemma SemiInParts(pad: string, head: string, rest: string, v: char -> bool)
    requires AllIn(pad, v) && !v(';')
    ensures ';' in pad + head + rest <==> ';' in head || ';' in rest
  {
    assert forall i :: 0 <= i < |pad| ==> v(pad[i]);
    assert ';' !in pad;
  }

  lemma BodyHasSemi(raw: string)
    ensures HasSemi(BodyWords(raw)) <==> ';' in Body(Trim(raw, IsWhite))
  {
    var body := Body(Trim(raw, IsWhite));
    TrimEndKeepsWords(body, IsWhite, IsWhite);
    SemiInWords(body, IsWhite);
  }

  /** The first word with a `;` in it ends the search for a comment: without one, comments are where the words begin. */
  lemma CommentInWords(raw: string)
    requires !HasSemi(BodyWords(raw))
    ensures HasComment(BodyWords(raw)) <==> HasComment(Words(raw, IsBreak))
  {
    var ws := BodyWords(raw);
    WordsAreWords(TrimEnd(StripSuffix(Trim(raw, IsWhite), ";"), IsWhite), IsWhite);
    forall i | 0 <= i < |ws| ensures IsWord(ws[i], IsBreak) {
      assert ';' !in ws[i];
    }
    FlatOfWords(ws, IsBreak);
    WordsBefore(raw);
  }

  /**
   For a host nginx has in the pool, a drain takes it out of the pool as nginx reads
   its directive exactly when the line holds that directive alone: no comment, and no
   `;` but the one that ends it. Otherwise the flag lands in the comment or on
   whatever follows the directive.
   */
  lemma DrainReachesNginxIff(raw: string)
    requires IsPlainLine(raw) && DOWN !in DirectiveWords(raw)
    ensures DOWN in DirectiveWords(SetDown(raw, true)) <==>
              !HasComment(Words(raw, IsBreak)) && ';' !in Body(Trim(raw, IsWhite))
  {
    DirectiveBefore(raw);
    DirectiveAfter(raw, true);
    DownIsPlain();
    assert NoneIn(DOWN, IsSemi);
    FlagIsLiveIff(BodyWords(raw), DOWN);
    BodyHasSemi(raw);
    if !HasSemi(BodyWords(raw)) {
      CommentInWords(raw);
    }
  }

  lemma {:induction false} LiveIsAll(ts: seq<string>)
    requires !HasComment(ts)
    ensures Live(ts) == ts
  {
    if ts != [] {
      assert !IsComment(ts[0]);
      CommentConcat([ts[0]], ts[1..]);
      assert ts == [ts[0]] + ts[1..];
      LiveIsAll(ts[1..]);
    }
  }

  lemma {:induction false} FlatOfWords(ws: seq<string>, w: char -> bool)
    requires forall i :: 0 <= i < |ws| ==> IsWord(ws[i], w)
    ensures Flat(ws, w) == ws
  {
    if ws != [] {
      FlatOfWords(ws[1..], w);
      WordsOfOne(ws[0], w);
      assert ws == [ws[0]] + ws[1..];
    }
  }

  lemma FlagAfterKey(ws: seq<string>, key: string, flag: string)
    requires ws != [] && StartsWith(ws[0], key) && ws[0] != flag && AfterKey(ws, key) != [] && AfterKey(ws, key)[0] != flag
    ensures flag in AfterKey(ws, key) <==> flag in ws
  {
    assert ws == [ws[0]] + ws[1..];
  }

  /** What `locate` reads off a simple directive: the flag anywhere on the line, the comment included. */
  lemma LocateReadsComment(raw: string)
    requires IsSimple(raw)
    ensures Reads(Tokens(Trim(raw, IsWhite))).state == Removed <==> DOWN in Words(raw, IsBreak)
    ensures IsPlainLine(raw) ==> DirectiveWords(raw) == Live(Words(raw, IsBreak))
    ensures IsPlainLine(raw) && !HasComment(Words(raw, IsBreak)) ==>
              (Reads(Tokens(Trim(raw, IsWhite))).state == Removed <==> DOWN in DirectiveWords(raw))
  {
    var ws := BodyWords(raw);
    SimpleWords(raw);
    forall i | 0 <= i < |ws| ensures IsWord(ws[i], IsBreak) {
      WordIsUnbroken(ws[i]);
    }
    FlatOfWords(ws, IsBreak);
    WordsBefore(raw);
    ReadsParams(Trim(raw, IsWhite));
    ServerIsNotDown(ws[0]);
    FlagAfterKey(ws, SERVER, DOWN);
    if IsPlainLine(raw) {
      DirectiveBefore(raw);
      WholeIsUncut(ws);
    }
    if !HasComment(ws) {
      LiveIsAll(ws);
    }
  }

  lemma {:induction false} WholeIsUncut(ws: seq<string>)
    requires forall i :: 0 <= i < |ws| ==> IsWord(ws[i], IsBreak)
    ensures Cut(ws) == ws
  {
    if ws != [] {
      WholeIsUncut(ws[1..]);
      FindAt(ws[0], IsSemi, |ws[0]|);
      assert ws == [ws[0]] + ws[1..];
    }
  }

  lemma WordIsUnbroken(t: string)
    requires IsWord(t, IsWhite) && NoneIn(t, IsOdd)
    ensures IsWord(t, IsBreak)
  {
    forall i | 0 <= i < |t| ensures !IsBreak(t[i]) {
      assert !IsWhite(t[i]) && !IsOdd(t[i]);
    }
  }

  // ---------------------------------------------------------------------------
  // What `locate` reads

  /** After a drain `locate` reports the host removed, comment or not. */
  lemma LocateSeesDrain(raw: string)
    requires StartsWith(Trim(raw, IsWhite), SERVER)
    ensures var after := Trim(SetDown(raw, true), IsWhite);
            StartsWith(after, SERVER) && Reads(Tokens(after)).state == Removed
  {
    var kept := Without(BodyWords(raw), DOWN);
    FirstWordIsKept(raw);
    JoinStarts(kept, SERVER, " ");
    JoinLast(kept, DOWN);
    IndentIsBlank(raw);
    DrainedText(Indent(raw), Join(kept, " "));
  }

  lemma DrainedText(indent: string, body: string)
    requires AllIn(indent, IsWhite) && StartsWith(body, SERVER)
    ensures var after := Trim(indent + (body + " " + DOWN) + ";", IsWhite);
            StartsWith(after, SERVER) && Reads(Tokens(after)).state == Removed
  {
    var text := body + " " + DOWN;
    assert text[..|SERVER|] == body[..|SERVER|];
    TrimmedDirective(indent, text);
    var after := text + ";";
    assert after[|SERVER|..] == body[|SERVER|..] + " " + DOWN + ";";
    FlagIsAToken(body[|SERVER|..]);
  }

  lemma {:induction false} JoinLast(ws: seq<string>, last: string)
    requires ws != []
    ensures Join(ws + [last], " ") == Join(ws, " ") + " " + last
  {
    assert (ws + [last])[1..] == ws[1..] + [last];
    if |ws| == 1 {
      assert Join([last], " ") == last;
    } else {
      JoinLast(ws[1..], last);
    }
  }

  lemma FirstWordIsKept(raw: string)
    requires StartsWith(Trim(raw, IsWhite), SERVER)
    ensures var kept := Without(BodyWords(raw), DOWN); kept != [] && StartsWith(kept[0], SERVER)
  {
    var line := Trim(raw, IsWhite);
    var body := TrimEnd(StripSuffix(line, ";"), IsWhite);
    BodyKeepsServer(line);
    ServerNotWhite();
    WordsAfterKey(body, SERVER, IsWhite);
    ServerIsNotDown(BodyWords(raw)[0]);
    WithoutCons(BodyWords(raw)[0], BodyWords(raw)[1..], DOWN);
    assert BodyWords(raw) == [BodyWords(raw)[0]] + BodyWords(raw)[1..];
  }

  lemma BodyKeepsServer(line: string)
    requires StartsWith(line, SERVER)
    ensures StartsWith(TrimEnd(StripSuffix(line, ";"), IsWhite), SERVER)
  {
    var stripped := StripSuffix(line, ";");
    assert line[..|SERVER|][|SERVER| - 1] == 'r';
    assert EndsWith(line, ";") ==> line[|line| - 1..][0] == ';';
    assert |stripped| >= |SERVER| && stripped[..|SERVER|] == line[..|SERVER|];
    var pad := TrimEndParts(stripped, IsWhite);
    var t := TrimEnd(stripped, IsWhite);
    if |t| < |SERVER| {
      assert SERVER[|t|] == stripped[|t|] == pad[0];
      ServerNotWhite();
    }
    assert t[..|SERVER|] == stripped[..|SERVER|];
  }

  /** The flag at the end of a directive is one of its tokens, whatever stands before it. */
  lemma FlagIsAWord(z: string, flag: string, v: char -> bool, w: char -> bool)
    requires flag != [] && NoneIn(flag, v) && NoneIn(flag, w) && v(' ') && w(' ') && w(';') && !v(';')
    ensures flag in Words(Trim(z + " " + (flag + ";"), v), w)
  {
    var end := flag + ";";
    var left := TrimStartParts(z, v);
    var u := TrimStart(z, v);
    WordsPadRight(flag, ";", w);
    WordsOfOne(flag, w);
    if u == [] {
      BlankBefore(left, z, end);
      TrimAt(left + " ", end, [], v);
    } else {
      TextBefore(left, u, end);
      TrimAt(left, u + [' '] + end, [], v);
      WordsApart(u, ' ', end, w);
    }
  }

  lemma BlankBefore(left: string, z: string, end: string)
    requires z == left + []
    ensures z + " " + end == (left + " ") + end + []
  {
  }

  lemma TextBefore(left: string, u: string, end: string)
    requires u != [] && end != []
    ensures (left + u) + " " + end == left + (u + [' '] + end) + []
    ensures var s := u + [' '] + end; s[0] == u[0] && s[|s| - 1] == end[|end| - 1]
  {
  }

  lemma FlagIsAToken(z: string)
    ensures DOWN in Split(Trim(z + " " + DOWN + ";", IsWhite), IsSep)
  {
    DownIsPlain();
    FlagIsAWord(z, DOWN, IsWhite, IsSep);
    Assoc(z + " ", DOWN, ";");
    var s := Trim(z + " " + DOWN + ";", IsWhite);
    SplitIsWords(s, IsSep);
    EmptyPiecesDoNotMatter(Split(s, IsSep));
  }

  /** What is live in the directive is live on the line. */
  lemma {:induction false} CutIsLive(ws: seq<string>, t: string)
    requires (forall i :: 0 <= i < |ws| ==> IsWord(ws[i], IsWhite)) && t in Live(Cut(ws))
    ensures t in Live(Flat(ws, IsBreak))
  {
    var x, rest := ws[0], ws[1..];
    assert ws == [x] + rest;
    CutCons(x, rest);
    FlatCons(x, rest, IsBreak);
    FirstPiece(x);
    var k := Find(x, IsSemi);
    if k == |x| {
      LiveCons(x, Cut(rest));
      LiveCons(x, Flat(rest, IsBreak));
      if t != x {
        CutIsLive(rest, t);
      }
    } else {
      var more := Words(x[k..], IsBreak) + Flat(rest, IsBreak);
      LiveCons(x[..k], []);
      LiveCons(x[..k], more);
      assert [x[..k]] + [] == [x[..k]];
      Assoc([x[..k]], Words(x[k..], IsBreak), Flat(rest, IsBreak));
    }
  }

  lemma FirstPiece(x: string)
    requires IsWord(x, IsWhite)
    ensures var k := Find(x, IsSemi);
            && (k == |x| ==> Words(x, IsBreak) == [x])
            && (0 < k < |x| ==> Words(x, IsBreak) == [x[..k]] + Words(x[k..], IsBreak))
  {
    var k := Find(x, IsSemi);
    forall i | 0 <= i < k ensures !IsBreak(x[i]) {
      assert !IsWhite(x[i]) && !IsSemi(x[i]);
    }
    PieceAt(x, k, IsBreak);
  }

  lemma PieceAt(x: string, k: nat, w: char -> bool)
    requires x != [] && k <= |x| && (forall i :: 0 <= i < k ==> !w(x[i])) && (k < |x| ==> w(x[k]))
    ensures k == |x| ==> Words(x, w) == [x]
    ensures 0 < k < |x| ==> Words(x, w) == [x[..k]] + Words(x[k..], w)
  {
    if k == |x| {
      WordsOfOne(x, w);
    } else if k > 0 {
      WordsStep([], x[..k], x[k..], w);
      assert [] + x[..k] + x[k..] == x;
    }
  }

  /**
   Such lines: any directive with a comment, for example `server a; # note`. A drain
   makes `locate` report the host removed and leaves it in nginx's pool.
   */
  lemma CommentedDrainIsLost(raw: string, live: string, note: string)
    requires raw == live + " #" + note && IsPlainLine(raw)
    requires StartsWith(Trim(raw, IsWhite), SERVER) && DOWN !in Words(live, IsBreak)
    ensures DOWN !in DirectiveWords(SetDown(raw, true))
    ensures StartsWith(Trim(SetDown(raw, true), IsWhite), SERVER) && Reads(Tokens(Trim(SetDown(raw, true), IsWhite))).state == Removed
  {
    CommentText(live, note);
    CommentBegins("#" + note);
    CommentedWords(live, "#" + note, IsBreak);
    NotLive(raw);
    DrainReachesNginxIff(raw);
    LocateSeesDrain(raw);
  }

  lemma NotLive(raw: string)
    requires IsPlainLine(raw) && DOWN !in Live(Words(raw, IsBreak))
    ensures DOWN !in DirectiveWords(raw)
  {
    DirectiveBefore(raw);
    WordsBefore(raw);
    if DOWN in Live(Cut(BodyWords(raw))) {
      WordsAreWords(TrimEnd(StripSuffix(Trim(raw, IsWhite), ";"), IsWhite), IsWhite);
      CutIsLive(BodyWords(raw), DOWN);
    }
  }

  /** A directive spelled out word by word is read as those words, whatever follows its `;`. */
  lemma DirectiveOf(pad: string, ws: seq<string>, rest: string)
    requires AllIn(pad, IsBlank) && !HasComment(ws) && forall i :: 0 <= i < |ws| ==> IsWord(ws[i], IsBreak)
    ensures DirectiveWords(pad + Join(ws, " ") + ";" + rest) == ws
  {
    var text := Join(ws, " ");
    forall i | 0 <= i < |ws| ensures NoneIn(ws[i], IsSemi) && IsWord(ws[i], IsBlank) {
      Unbroken(ws[i]);
    }
    JoinInherits(ws, IsSemi);
    SemiAfter(pad, text, rest);
    WordsSkip(pad, text, IsBlank);
    WordsOfJoin(ws, IsBlank);
    LiveIsAll(ws);
  }

  lemma Unbroken(t: string)
    requires IsWord(t, IsBreak)
    ensures NoneIn(t, IsSemi) && IsWord(t, IsBlank) && IsWord(t, IsWhite)
  {
    forall i | 0 <= i < |t| ensures !IsSemi(t[i]) && !IsBlank(t[i]) && !IsWhite(t[i]) {
      assert !IsBreak(t[i]);
    }
  }

  lemma SemiAfter(pad: string, text: string, rest: string)
    requires AllIn(pad, IsBlank) && NoneIn(text, IsSemi)
    ensures var s := pad + text + ";" + rest; s[..Find(s, IsSemi)] == pad + text
  {
    var s := pad + text + ";" + rest;
    assert forall i :: 0 <= i < |pad| ==> s[i] == pad[i] && IsBlank(pad[i]);
    assert forall i :: |pad| <= i < |pad + text| ==> s[i] == text[i - |pad|];
    FindAt(s, IsSemi, |pad + text|);
  }

  lemma SpelledBody(text: string, raw: string, w: char -> bool)
    requires text != [] && !w(text[0]) && !w(text[|text| - 1]) && !w(';') && raw == text + ";"
    ensures Trim(raw, w) == raw && TrimStart(raw, w) == raw && TrimEnd(raw, w) == raw && StripSuffix(raw, ";") == text && TrimEnd(text, w) == text
  {
    assert raw[0] == text[0] && raw[|raw| - 1] == ';';
    TrimStartAt([], raw, w);
    assert [] + raw == raw;
    assert raw[|raw| - 1..] == ";" && raw[..|raw| - 1] == text;
  }

  /** A line spelled out word by word is rewritten on those words. */
  lemma SpelledWords(ws: seq<string>, raw: string)
    requires raw == Join(ws, " ") + ";" && ws != [] && forall i :: 0 <= i < |ws| ==> IsWord(ws[i], IsWhite)
    ensures BodyWords(raw) == ws && Indent(raw) == [] && Trim(raw, IsWhite) == raw
  {
    JoinEnds(ws, IsWhite);
    SpelledBody(Join(ws, " "), raw, IsWhite);
    WordsOfJoin(ws, IsWhite);
  }

  lemma {:induction false} JoinEnds(ws: seq<string>, w: char -> bool)
    requires ws != [] && forall i :: 0 <= i < |ws| ==> IsWord(ws[i], w)
    ensures var s := Join(ws, " "); s != [] && !w(s[0]) && !w(s[|s| - 1])
  {
    if |ws| > 1 {
      JoinEnds(ws[1..], w);
      var rest := Join(ws[1..], " ");
      var s := Join(ws, " ");
      assert s == ws[0] + " " + rest && s[0] == ws[0][0] && s[|s| - 1] == rest[|rest| - 1];
    }
  }

  /**
   And lines with a second directive, for example `server a; server b;`. A drain of
   `a` marks `b`: `locate` reports `a` removed, nginx keeps it and drops `b`.
   */
  lemma SecondDirectiveIsDrained(a: string, b: string)
    requires IsWord(a, IsBreak) && IsWord(b, IsBreak) && a != DOWN && b != DOWN && !IsComment(a) && !IsComment(b)
    ensures var raw := Join([SERVER, a + ";", SERVER, b], " ") + ";";
            var first, second := Join([SERVER, a], " ") + ";", " " + Join([SERVER, b, DOWN], " ") + ";";
            && SetDown(raw, true) == first + second
            && DirectiveWords(first + second) == [SERVER, a] && DirectiveWords(second) == [SERVER, b, DOWN]
            && StartsWith(Trim(first + second, IsWhite), SERVER) && Reads(Tokens(Trim(first + second, IsWhite))).state == Removed
  {
    ServerIsUnbroken();
    var raw := Join([SERVER, a + ";", SERVER, b], " ") + ";";
    TwoDirectives(SERVER, a, b, DOWN, raw);
    TwoRead(SERVER, a, b, DOWN);
    LocateSeesDrain(raw);
  }

  lemma TwoRead(key: string, a: string, b: string, flag: string)
    requires IsWord(key, IsBreak) && IsWord(flag, IsBreak) && IsWord(a, IsBreak) && IsWord(b, IsBreak)
    requires !IsComment(key) && !IsComment(flag) && !IsComment(a) && !IsComment(b)
    ensures var first, second := Join([key, a], " ") + ";", " " + Join([key, b, flag], " ") + ";";
            DirectiveWords(first + second) == [key, a] && DirectiveWords(second) == [key, b, flag]
  {
    var x, y := Join([key, a], " "), Join([key, b, flag], " ");
    DirectiveOf([], [key, a], " " + y + ";");
    assert [] + x + ";" + (" " + y + ";") == x + ";" + (" " + y + ";");
    DirectiveOf(" ", [key, b, flag], []);
    assert " " + y + ";" + [] == " " + y + ";";
  }

  lemma ServerIsUnbroken()
    ensures IsWord(SERVER, IsBreak) && IsWord(DOWN, IsBreak) && !IsComment(SERVER) && !IsComment(DOWN) && SERVER != DOWN
  {
  }

  lemma TwoDirectives(key: string, a: string, b: string, flag: string, raw: string)
    requires key == SERVER && flag == DOWN && key != flag && IsWord(key, IsBreak) && IsWord(flag, IsBreak)
    requires IsWord(a, IsBreak) && IsWord(b, IsBreak) && a != flag && b != flag
    requires raw == Join([key, a + ";", key, b], " ") + ";"
    ensures SetDown(raw, true) == Join([key, a], " ") + ";" + (" " + Join([key, b, flag], " ") + ";")
    ensures StartsWith(Trim(raw, IsWhite), key)
  {
    var ws := [key, a + ";", key, b];
    Unbroken(key);
    Unbroken(b);
    Glued(a);
    SpelledWords(ws, raw);
    WithoutFour(key, a + ";", key, b, flag);
    JoinFive(key, a, b, flag);
    assert ws == [key] + [a + ";", key, b];
    SpelledStart(key, [a + ";", key, b], raw);
    assert [] + Join(ws + [flag], " ") == Join(ws + [flag], " ");
  }

  lemma Glued(a: string)
    requires IsWord(a, IsBreak)
    ensures IsWord(a + ";", IsWhite) && a + ";" != DOWN
  {
    Unbroken(a);
    assert (a + ";")[|a|] == ';';
  }

  lemma SpelledStart(key: string, rest: seq<string>, raw: string)
    requires raw == Join([key] + rest, " ") + ";"
    ensures StartsWith(raw, key)
  {
    assert ([key] + rest)[1..] == rest;
    assert raw[..|key|] == key;
  }

  lemma WithoutFour(p: string, q: string, r: string, s: string, flag: string)
    requires p != flag && q != flag && r != flag && s != flag
    ensures Without([p, q, r, s], flag) == [p, q, r, s]
  {
    assert [p, q, r, s][1..] == [q, r, s] && [q, r, s][1..] == [r, s] && [r, s][1..] == [s];
    assert Without([s], flag) == [s];
    assert Without([r, s], flag) == [r, s];
    assert Without([q, r, s], flag) == [q, r, s];
  }

  lemma JoinFive(key: string, a: string, b: string, flag: string)
    ensures Join([key, a + ";", key, b] + [flag], " ") + ";" == Join([key, a], " ") + ";" + (" " + Join([key, b, flag], " ") + ";")
  {
    var all := [key, a + ";", key, b] + [flag];
    assert all[1..] == [a + ";", key, b, flag] && all[1..][1..] == [key, b, flag];
    var last := Join([key, b, flag], " ");
    assert Join(all[1..], " ") == (a + ";") + " " + last;
    assert Join([key, a], " ") == key + " " + a by { assert [key, a][1..] == [a]; }
    assert Join(all, " ") == key + " " + ((a + ";") + " " + last);
    Spaced(key, a, last);
  }

  lemma Spaced(key: string, a: string, last: string)
    ensures key + " " + ((a + ";") + " " + last) + ";" == key + " " + a + ";" + (" " + last + ";")
  {
  }

  lemma CommentText(live: string, note: string)
    ensures live + " #" + note == live + [' '] + ("#" + note)
  {
    assert " #" == [' '] + "#";
  }

  lemma CommentedWords(live: string, comment: string, w: char -> bool)
    requires w(' ') && var ts := Words(comment, w); ts != [] && IsComment(ts[0])
    ensures var ts := Words(live + [' '] + comment, w);
            HasComment(ts) && forall t :: t in Live(ts) ==> t in Words(live, w)
  {
    var a, b := Words(live, w), Words(comment, w);
    WordsApart(live, ' ', comment, w);
    CommentConcat(a, b);
    LiveConcat(a, b);
    assert Live(b) == [] && a + [] == a;
    LiveIsPart(a);
  }

  lemma CommentBegins(s: string)
    requires s != [] && s[0] == '#'
    ensures var ts := Words(s, IsBreak); ts != [] && IsComment(ts[0]) && HasComment(ts)
  {
    assert TrimStart(s, IsBreak) == s;
    assert Find(s, IsBreak) > 0;
  }

  lemma {:induction false} LiveIsPart(ts: seq<string>)
    ensures forall t :: t in Live(ts) ==> t in ts
  {
    if ts != [] {
      LiveIsPart(ts[1..]);
    }
  }
}
