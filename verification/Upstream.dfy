/**
 The nginx load-balancer adapter: finding a host's `server` directive in an
 `upstream` block and setting or clearing its `down` flag, on the text of the
 configuration file.
 */
module Upstream {
  import opened Basics
  import opened Text
  import opened PoolFile

  const SERVER: string := "server"
  const DOWN: string := "down"
  const WEIGHT: string := "weight="

  predicate IsSep(c: char) {
    c == ' ' || c == '\t' || c == ';'
  }

  // ---------------------------------------------------------------------------
  // Reading

  /** The parameters of a directive, as `locate` splits them. */
  function Tokens(line: string): (r: seq<string>)
    requires StartsWith(line, SERVER)
    ensures r != []
  {
    Split(Trim(line[|SERVER|..], IsWhite), IsSep)
  }

  /** The host a trimmed line is a `server` directive for. */
  function HostOf(line: string): Option<string> {
    if !StartsWith(line, SERVER) then None
    else
      var address := Tokens(line)[0];
      if address == [] then None else Some(Split(address, IsColon)[0])
  }

  /** The first token that reads as a weight. */
  function WeightIn(tokens: seq<string>): Option<nat> {
    if tokens == [] then None
    else if StartsWith(tokens[0], WEIGHT) && ParseUint(tokens[0][|WEIGHT|..], U32_MAX).Some?
    then ParseUint(tokens[0][|WEIGHT|..], U32_MAX)
    else WeightIn(tokens[1..])
  }

  function Reads(tokens: seq<string>): Membership {
    Membership(if DOWN in tokens then Removed else InPool, WeightIn(tokens))
  }

  /** Whether a trimmed line opens the named block. */
  predicate Opens(line: string, upstream: string) {
    && StartsWith(line, "upstream")
    && var rest := Trim(line[|"upstream"|..], IsWhite);
    && !StartsWith(rest, "{")
    && Words(rest, IsWhite) != [] && Words(rest, IsWhite)[0] == upstream && '{' in line
  }

  // ---------------------------------------------------------------------------
  // Rewriting

  function Without(ws: seq<string>, flag: string): seq<string> {
    if ws == [] then [] else (if ws[0] == flag then [] else [ws[0]]) + Without(ws[1..], flag)
  }

  function Indent(raw: string): string {
    raw[..|raw| - |TrimStart(raw, IsWhite)|]
  }

  /** The directive's words, without its terminator. */
  function BodyWords(raw: string): seq<string> {
    var body := TrimEnd(TrimStart(raw, IsWhite), IsWhite);
    Words(TrimEnd(StripSuffix(body, ";"), IsWhite), IsWhite)
  }

  /** `set_down`. */
  function SetDown(raw: string, down: bool): string {
    Indent(raw) + Join(Without(BodyWords(raw), DOWN) + (if down then [DOWN] else []), " ") + ";"
  }

  /** Whitespace other than space and tab, and `;`: what a simple directive has only at its end. */
  predicate IsOdd(c: char) {
    (IsWhite(c) && c != ' ' && c != '\t') || c == ';'
  }

  function Body(line: string): string {
    StripSuffix(line, ";")
  }

  /** The directive's parameters: what `locate` reads, without the empty pieces. */
  function Params(line: string): seq<string>
    requires StartsWith(line, SERVER)
  {
    Words(Trim(line[|SERVER|..], IsWhite), IsSep)
  }

  /**
   A simple directive: at most one `;` and only at its end, its parts separated by
   spaces and tabs, and an address that is not spelled `down`.
   */
  ghost predicate IsSimple(raw: string) {
    var line := Trim(raw, IsWhite);
    && StartsWith(line, SERVER) && NoneIn(Body(line), IsOdd)
    && Params(line) != [] && Params(line)[0] != DOWN
  }

  // ---------------------------------------------------------------------------
  // What `locate` reads of a simple directive

  lemma {:induction false} EmptyPiecesDoNotMatter(ts: seq<string>)
    ensures (DOWN in ts <==> DOWN in NonEmpty(ts)) && WeightIn(ts) == WeightIn(NonEmpty(ts))
  {
    if ts != [] {
      EmptyPiecesDoNotMatter(ts[1..]);
      assert NonEmpty(ts) == if ts[0] == [] then NonEmpty(ts[1..]) else [ts[0]] + NonEmpty(ts[1..]);
      assert ts == [ts[0]] + ts[1..];
    }
  }

  /** The membership read off a directive depends only on its parameters. */
  lemma ReadsParams(line: string)
    requires StartsWith(line, SERVER)
    ensures Reads(Tokens(line)) == Reads(Params(line))
  {
    SplitIsWords(Trim(line[|SERVER|..], IsWhite), IsSep);
    EmptyPiecesDoNotMatter(Tokens(line));
  }

  lemma ServerNotWhite()
    ensures NoneIn(SERVER, IsWhite) && NoneIn(SERVER, IsSep)
  {
  }

  lemma SepIsWhite(s: string)
    requires NoneIn(s, IsOdd)
    ensures forall i :: 0 <= i < |s| ==> IsSep(s[i]) == IsWhite(s[i])
  {
  }

  /** A line that begins with the keyword and ends in `;` is longer than the keyword. */
  lemma LongerThanKey(line: string)
    requires StartsWith(line, SERVER) && EndsWith(line, ";")
    ensures |line| > |SERVER|
  {
    assert line[..|SERVER|][|SERVER| - 1] == 'r';
    assert line[|line| - 1..][0] == ';';
  }

  lemma BodyTaken(line: string, n: nat)
    requires n < |line| && EndsWith(line, ";")
    ensures |Body(line)| == |line| - 1 && Body(line)[..n] == line[..n] && line[|Body(line)|..] == ";"
    ensures line[n..] == Body(line)[n..] + line[|Body(line)|..]
  {
  }

  lemma BodyStarts(line: string)
    requires StartsWith(line, SERVER)
    ensures StartsWith(Body(line), SERVER) && line[|SERVER|..] == Body(line)[|SERVER|..] + line[|Body(line)|..]
    ensures line[|Body(line)|..] == (if EndsWith(line, ";") then ";" else "")
  {
    if EndsWith(line, ";") {
      LongerThanKey(line);
      BodyTaken(line, |SERVER|);
    }
  }

  lemma ParamsOfBody(line: string)
    requires StartsWith(line, SERVER) && NoneIn(Body(line), IsOdd)
    ensures StartsWith(Body(line), SERVER)
    ensures Params(line) == Words(Body(line)[|SERVER|..], IsWhite)
  {
    BodyStarts(line);
    var tail := Body(line)[|SERVER|..];
    var end := line[|Body(line)|..];
    var x := line[|SERVER|..];
    assert NoneIn(tail, IsOdd);
    assert forall i :: 0 <= i < |x| ==> x[i] == if i < |tail| then tail[i] else ';';
    SepIsWhite(tail);
    TrimKeepsWords(x, IsWhite, IsSep);
    WordsPadRight(tail, end, IsSep);
    WordsAgree(tail, IsSep, IsWhite);
  }

  /** The parameters among a directive's words: all after the keyword, which may be glued to the first. */
  function AfterKey(ws: seq<string>, key: string): seq<string>
    requires ws != [] && StartsWith(ws[0], key)
  {
    if ws[0] == key then ws[1..] else [ws[0][|key|..]] + ws[1..]
  }

  lemma WordsAfterKey(b: string, key: string, w: char -> bool)
    requires key != [] && StartsWith(b, key) && NoneIn(key, w)
    ensures Words(b, w) != [] && StartsWith(Words(b, w)[0], key)
    ensures AfterKey(Words(b, w), key) == Words(b[|key|..], w)
  {
    var y := b[|key|..];
    assert b == key + y;
    if y == [] || w(y[0]) {
      assert b == [] + key + y;
      WordsStep([], key, y, w);
    } else {
      var k := Find(y, w);
      var head, rest := y[..k], y[k..];
      assert y == [] + head + rest;
      WordsStep([], head, rest, w);
      assert b == [] + (key + head) + rest;
      WordsStep([], key + head, rest, w);
      assert (key + head)[..|key|] == key && (key + head)[|key|..] == head;
    }
  }

  /** The words of a simple directive, and the parameters they carry. */
  lemma SimpleWords(raw: string)
    requires IsSimple(raw)
    ensures var ws := BodyWords(raw);
            && ws != [] && StartsWith(ws[0], SERVER)
            && AfterKey(ws, SERVER) == Params(Trim(raw, IsWhite))
            && forall i :: 0 <= i < |ws| ==> IsWord(ws[i], IsWhite) && NoneIn(ws[i], IsOdd)
  {
    var line := Trim(raw, IsWhite);
    var b := Body(line);
    ParamsOfBody(line);
    ServerNotWhite();
    WordsAfterKey(b, SERVER, IsWhite);
    var pad := TrimEndParts(b, IsWhite);
    WordsPadRight(TrimEnd(b, IsWhite), pad, IsWhite);
    assert BodyWords(raw) == Words(b, IsWhite);
    WordsAreWords(b, IsWhite);
    WordsInherit(b, IsWhite, IsOdd);
  }

  /** The joined words of a directive begin with its keyword. */
  lemma JoinStarts(ws: seq<string>, key: string, sep: string)
    requires ws != [] && StartsWith(ws[0], key)
    ensures StartsWith(Join(ws, sep), key)
  {
    var b := Join(ws, sep);
    assert b[..|ws[0]|] == ws[0];
    assert b[..|key|] == ws[0][..|key|];
  }

  lemma TrimmedDirective(indent: string, b: string)
    requires AllIn(indent, IsWhite) && StartsWith(b, SERVER)
    ensures Trim(indent + b + ";", IsWhite) == b + ";" && Body(b + ";") == b && StartsWith(b + ";", SERVER)
  {
    var line := b + ";";
    assert b[0] == b[..|SERVER|][0] == 's';
    assert line[0] == 's' && line[|line| - 1] == ';';
    assert indent + b + ";" == indent + line + [];
    TrimAt(indent, line, [], IsWhite);
    assert line[|line| - 1..] == ";";
    assert line[..|SERVER|] == b[..|SERVER|];
  }

  /** Words joined into a directive are read back as its parameters. */
  lemma JoinedDirective(indent: string, ws: seq<string>)
    requires AllIn(indent, IsWhite) && ws != [] && StartsWith(ws[0], SERVER)
    requires forall i :: 0 <= i < |ws| ==> IsWord(ws[i], IsWhite) && NoneIn(ws[i], IsOdd)
    ensures var line := Trim(indent + Join(ws, " ") + ";", IsWhite);
            StartsWith(line, SERVER) && NoneIn(Body(line), IsOdd) && Params(line) == AfterKey(ws, SERVER)
  {
    var b := Join(ws, " ");
    JoinStarts(ws, SERVER, " ");
    TrimmedDirective(indent, b);
    JoinInherits(ws, IsOdd);
    ParamsOfBody(b + ";");
    ServerNotWhite();
    WordsAfterKey(b, SERVER, IsWhite);
    WordsOfJoin(ws, IsWhite);
  }

  lemma {:induction false} WithoutIs(ws: seq<string>, flag: string)
    ensures forall i :: 0 <= i < |Without(ws, flag)| ==> Without(ws, flag)[i] in ws && Without(ws, flag)[i] != flag
  {
    if ws != [] {
      WithoutIs(ws[1..], flag);
    }
  }

  lemma NotAWeight()
    ensures !StartsWith(DOWN, WEIGHT)
  {
  }

  lemma {:induction false} WeightWithout(ws: seq<string>, flag: string)
    requires !StartsWith(flag, WEIGHT)
    ensures WeightIn(Without(ws, flag)) == WeightIn(ws)
  {
    if ws != [] {
      WeightWithout(ws[1..], flag);
      var rest := Without(ws[1..], flag);
      if ws[0] != flag {
        assert Without(ws, flag)[0] == ws[0] && Without(ws, flag)[1..] == rest;
      } else {
        assert Without(ws, flag) == rest && WeightIn(ws) == WeightIn(ws[1..]);
      }
    }
  }

  lemma {:induction false} WeightIgnores(ts: seq<string>, flag: string)
    requires !StartsWith(flag, WEIGHT)
    ensures WeightIn(ts + [flag]) == WeightIn(ts)
  {
    if ts == [] {
      assert ts + [flag] == [flag] && [flag][1..] == [];
    } else {
      assert (ts + [flag])[1..] == ts[1..] + [flag];
      WeightIgnores(ts[1..], flag);
    }
  }

  /** Dropping and appending the flag acts on the parameters alone. */
  lemma AfterKeyCommutes(ws: seq<string>, key: string, flag: string, extra: seq<string>)
    requires ws != [] && StartsWith(ws[0], key) && ws[0] != flag
    requires AfterKey(ws, key) != [] && AfterKey(ws, key)[0] != flag
    ensures var out := Without(ws, flag) + extra;
            && out != [] && out[0] == ws[0]
            && AfterKey(out, key) == Without(AfterKey(ws, key), flag) + extra
  {
    var x, rest := ws[0], ws[1..];
    assert ws == [x] + rest;
    WithoutCons(x, rest, flag);
    var kept := Without(rest, flag);
    assert Without(ws, flag) + extra == [x] + (kept + extra);
    AfterKeyCons(x, kept + extra, key);
    AfterKeyCons(x, rest, key);
    if x != key {
      var y := x[|key|..];
      WithoutCons(y, rest, flag);
      assert [y] + (kept + extra) == [y] + kept + extra;
    }
  }

  lemma WithoutCons(x: string, rest: seq<string>, flag: string)
    ensures Without([x] + rest, flag) == (if x == flag then [] else [x]) + Without(rest, flag)
  {
    assert ([x] + rest)[1..] == rest;
  }

  lemma AfterKeyCons(x: string, rest: seq<string>, key: string)
    requires StartsWith(x, key)
    ensures AfterKey([x] + rest, key) == if x == key then rest else [x[|key|..]] + rest
  {
    assert ([x] + rest)[1..] == rest;
  }

  /**
   Setting or clearing the flag on a simple directive: the line stays a simple
   directive of the same host and weight, and is down exactly as asked.
   */
  lemma SetDownReads(raw: string, down: bool)
    requires IsSimple(raw)
    ensures IsSimple(SetDown(raw, down))
    ensures var before, after := Trim(raw, IsWhite), Trim(SetDown(raw, down), IsWhite);
            && HostOf(after) == HostOf(before) && HostOf(before).Some?
            && Reads(Tokens(after)) == Membership(if down then Removed else InPool, Reads(Tokens(before)).weight)
  {
    var line, after := Trim(raw, IsWhite), Trim(SetDown(raw, down), IsWhite);
    var extra := if down then [DOWN] else [];
    SetDownParams(raw, down);
    ParamsAfterFlag(Params(line), down);
    ReadsParams(line);
    ReadsParams(after);
    FirstParamIsAddress(raw);
    FirstParamIsAddress(SetDown(raw, down));
  }

  lemma ParamsAfterFlag(params: seq<string>, down: bool)
    requires params != [] && params[0] != DOWN
    ensures var out := Without(params, DOWN) + (if down then [DOWN] else []);
            && out != [] && out[0] == params[0]
            && Reads(out) == Membership(if down then Removed else InPool, WeightIn(params))
  {
    WithoutIs(params, DOWN);
    NotAWeight();
    WeightWithout(params, DOWN);
    WeightIgnores(Without(params, DOWN), DOWN);
    assert Without(params, DOWN)[0] == params[0];
    if !down {
      assert Without(params, DOWN) + [] == Without(params, DOWN);
    }
  }

  lemma ServerIsNotDown(s: string)
    requires StartsWith(s, SERVER)
    ensures s != DOWN
  {
    assert s[..|SERVER|][0] == 's';
  }

  lemma SetDownParams(raw: string, down: bool)
    requires IsSimple(raw)
    ensures var before, after := Trim(raw, IsWhite), Trim(SetDown(raw, down), IsWhite);
            && StartsWith(after, SERVER) && NoneIn(Body(after), IsOdd)
            && Params(after) == Without(Params(before), DOWN) + (if down then [DOWN] else [])
  {
    var ws := BodyWords(raw);
    var extra := if down then [DOWN] else [];
    var out := Without(ws, DOWN) + extra;
    SimpleWords(raw);
    ServerIsNotDown(ws[0]);
    AfterKeyCommutes(ws, SERVER, DOWN, extra);
    WithoutIs(ws, DOWN);
    DownIsPlain();
    forall i | 0 <= i < |out| ensures IsWord(out[i], IsWhite) && NoneIn(out[i], IsOdd) {
      assert out[i] in ws || out[i] == DOWN;
    }
    IndentIsBlank(raw);
    JoinedDirective(Indent(raw), out);
  }

  /** A rewritten directive keeps its indentation and its keyword, and ends in its terminator. */
  lemma SetDownLayout(raw: string, down: bool, pad: string, text: string)
    requires IsSimple(raw) && raw == pad + text && AllIn(pad, IsWhite) && text != [] && !IsWhite(text[0])
    ensures StartsWith(SetDown(raw, down), pad + SERVER) && EndsWith(SetDown(raw, down), ";")
  {
    var ws := BodyWords(raw);
    var extra := if down then [DOWN] else [];
    var out := Without(ws, DOWN) + extra;
    TrimStartAt(pad, text, IsWhite);
    assert Indent(raw) == pad;
    SimpleWords(raw);
    ServerIsNotDown(ws[0]);
    AfterKeyCommutes(ws, SERVER, DOWN, extra);
    JoinStarts(out, SERVER, " ");
    Fenced(pad, Join(out, " "), SERVER, ";");
  }

  lemma Fenced(pad: string, text: string, key: string, end: string)
    requires StartsWith(text, key)
    ensures StartsWith(pad + text + end, pad + key) && EndsWith(pad + text + end, end)
  {
    assert text == key + text[|key|..];
    assert pad + text + end == (pad + key) + (text[|key|..] + end);
  }

  lemma DownIsPlain()
    ensures IsWord(DOWN, IsWhite) && NoneIn(DOWN, IsOdd)
  {
  }

  lemma IndentIsBlank(raw: string)
    ensures AllIn(Indent(raw), IsWhite)
  {
    var pad := TrimStartParts(raw, IsWhite);
    assert Indent(raw) == pad;
  }

  /** The address of a simple directive is its first parameter. */
  lemma FirstParamIsAddress(raw: string)
    requires IsSimple(raw)
    ensures var line := Trim(raw, IsWhite);
            Tokens(line)[0] == Params(line)[0] && HostOf(line) == Some(Split(Params(line)[0], IsColon)[0])
  {
    var line := Trim(raw, IsWhite);
    var s := Trim(line[|SERVER|..], IsWhite);
    WordsAreWords(s, IsSep);
    FirstPieceIsFirstWord(line);
  }

  lemma FirstPieceIsFirstWord(line: string)
    requires StartsWith(line, SERVER) && NoneIn(Body(line), IsOdd) && Params(line) != []
    ensures Tokens(line)[0] == Params(line)[0]
  {
    var s := Trim(line[|SERVER|..], IsWhite);
    NoLeadingTerminator(line);
    SplitIsWords(s, IsSep);
    assert Tokens(line)[0] != [];
  }

  /** A simple directive with parameters does not begin with its terminator. */
  lemma NoLeadingTerminator(line: string)
    requires StartsWith(line, SERVER) && NoneIn(Body(line), IsOdd) && Params(line) != []
    ensures var s := Trim(line[|SERVER|..], IsWhite); s != [] && !IsSep(s[0])
  {
    var x := line[|SERVER|..];
    var s := Trim(x, IsWhite);
    TrimEnds(x, IsWhite);
    var left := TrimStartParts(x, IsWhite);
    var right := TrimEndParts(TrimStart(x, IsWhite), IsWhite);
    assert x == left + (s + right);
    if s == [] {
      WordsOfPadding([], IsSep);
    } else if s[0] == ';' {
      BodyStarts(line);
      OnlyBlanksBefore(Body(line)[|SERVER|..], line[|Body(line)|..], left, s + right);
      WordsOfPadding(left, IsWhite);
      ParamsOfBody(line);
    }
  }

  lemma OnlyBlanksBefore(tail: string, end: string, left: string, rest: string)
    requires tail + end == left + rest && rest != [] && rest[0] == ';' && |end| <= 1 && NoneIn(tail, IsOdd)
    ensures tail == left
  {
    var x := tail + end;
    assert x[|left|] == ';';
    assert forall i :: 0 <= i < |tail| ==> x[i] == tail[i] && tail[i] != ';';
    assert |left| == |tail|;
    assert x[..|left|] == left && x[..|tail|] == tail;
  }

  lemma ServerIsNoBrace(line: string)
    requires StartsWith(line, SERVER)
    ensures !StartsWith(line, "}")
  {
    assert line[..|SERVER|][0] == 's';
    assert line[0] == 's';
    assert line[..1] != "}";
  }

  lemma TrimForgetsCr(s: string)
    ensures Trim(StripCr(s), IsWhite) == Trim(s, IsWhite)
  {
    if s != [] && s[|s| - 1] == '\r' {
      assert s == StripCr(s) + ['\r'];
      TrimForgetsLast(StripCr(s), '\r', IsWhite);
    }
  }

  lemma SetDownOneLine(raw: string, down: bool)
    requires '\n' !in raw
    ensures '\n' !in SetDown(raw, down)
  {
    var words := Without(BodyWords(raw), DOWN) + (if down then [DOWN] else []);
    var body := TrimEnd(TrimStart(raw, IsWhite), IsWhite);
    WordsAreWords(TrimEnd(StripSuffix(body, ";"), IsWhite), IsWhite);
    WithoutIs(BodyWords(raw), DOWN);
    DownIsPlain();
    forall i | 0 <= i < |words| ensures NoneIn(words[i], IsNewline) {
      if i < |Without(BodyWords(raw), DOWN)| {
        assert words[i] in BodyWords(raw);
      }
      assert IsWord(words[i], IsWhite);
    }
    JoinInherits(words, IsNewline);
    assert forall i :: 0 <= i < |Indent(raw)| ==> Indent(raw)[i] == raw[i];
    assert forall c :: c in SetDown(raw, down) ==> c in Indent(raw) || c in Join(words, " ") || c == ';';
  }

  // ---------------------------------------------------------------------------
  // The grammar of an upstream block

  function StatedBy(raw: string): Membership {
    var line := Trim(raw, IsWhite);
    if StartsWith(line, SERVER) then Reads(Tokens(line)) else Membership(InPool, None)
  }

  function Nginx(upstream: string): Grammar {
    Grammar(
      (raw: string) => Opens(Trim(raw, IsWhite), upstream),
      (raw: string) => StartsWith(Trim(raw, IsWhite), "}"),
      (raw: string) => HostOf(Trim(raw, IsWhite)),
      StatedBy,
      SetDown)
  }

  lemma NginxRewrites(upstream: string, simple: string -> bool, raw: string, down: bool)
    requires (forall r :: simple(r) <==> IsSimple(r)) && simple(raw)
    ensures RewriteKeeps(Nginx(upstream), simple, raw, down)
  {
    SetDownReads(raw, down);
    var line := SetDown(raw, down);
    ServerIsNoBrace(Trim(line, IsWhite));
    var g := Nginx(upstream);
    assert g.set_(raw, down) == line;
    assert simple(line) && !g.closes(line);
    assert g.host(line) == HostOf(Trim(line, IsWhite)) && g.host(raw) == HostOf(Trim(raw, IsWhite));
    assert g.stated(line) == Reads(Tokens(Trim(line, IsWhite))) && g.stated(raw) == Reads(Tokens(Trim(raw, IsWhite)));
  }

  lemma NginxForgetsCr(upstream: string, simple: string -> bool, raw: string)
    requires forall r :: simple(r) <==> IsSimple(r)
    ensures CrIsBlank(Nginx(upstream), simple, raw)
  {
    TrimForgetsCr(raw);
    assert IsSimple(StripCr(raw)) <==> IsSimple(raw);
  }

  /** Simple `server` directives obey every law the fleet theorems ask of a grammar. */
  lemma NginxIsLawful(upstream: string, simple: string -> bool)
    requires forall r :: simple(r) <==> IsSimple(r)
    ensures Lawful(Nginx(upstream), simple)
  {
    var g := Nginx(upstream);
    forall raw, down | simple(raw) ensures RewriteKeeps(g, simple, raw, down) {
      NginxRewrites(upstream, simple, raw, down);
    }
    forall raw ensures CrIsBlank(g, simple, raw) {
      NginxForgetsCr(upstream, simple, raw);
    }
    forall raw, down | '\n' !in raw ensures '\n' !in g.set_(raw, down) {
      SetDownOneLine(raw, down);
    }
    forall raw ensures g.stated(raw).state != Draining {
      assert g.stated(raw) == StatedBy(raw);
    }
  }

  /** The promise of drain and reattach for the nginx adapter, over every run in one upstream. */
  lemma NginxFleetIsRestored(upstream: string, simple: string -> bool, content: string, hosts: set<string>, ops: seq<Op>)
    requires forall r :: simple(r) <==> IsSimple(r)
    requires forall h :: h in hosts ==> IsManaged(Nginx(upstream), simple, content, h)
    requires forall i :: 0 <= i < |ops| ==> ops[i].host in hosts
    ensures OnTrack(Nginx(upstream), simple, content, hosts, ops, Run(Nginx(upstream), Fleet(content, map[]), ops))
  {
    NginxIsLawful(upstream, simple);
    FleetIsRestored(Nginx(upstream), simple, content, hosts, ops);
  }
}
