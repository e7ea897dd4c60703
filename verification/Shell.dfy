/**
 Rendering a remote command for a login shell (`fraisier-adapter-support`
 transport), read back by the token recognition, quote removal and simple-command
 rules of the POSIX.1-2017 Shell Command Language (sections 2.2, 2.3, 2.4, 2.9.1
 and 2.10.2).
 */
module Shell {
  import opened Basics
  import opened Text

  // ---------------------------------------------------------------------------
  // The rendering

  /** ASCII letters, digits and the punctuation `_-./:=@%+,`. */
  predicate IsSafeChar(c: char) {
    || IsAlnum(c) || c == '_' || c == '-' || c == '.' || c == '/' || c == ':' || c == '=' || c == '@' || c == '%'
    || c == '+' || c == ','
  }

  predicate IsSafe(value: string) {
    value != [] && forall i | 0 <= i < |value| :: IsSafeChar(value[i])
  }

  const ESCAPED_QUOTE: string := "'\\''"

  function ShellQuote(value: string): string {
    if IsSafe(value) then value else "'" + Replace(value, '\'', ESCAPED_QUOTE) + "'"
  }

  type Env = (string, string)

  // The parts take the quoting as a parameter; the command passes `ShellQuote`.

  function EnvPart(envs: seq<Env>, quote: string -> string): string {
    if envs == [] then [] else envs[0].0 + "=" + quote(envs[0].1) + " " + EnvPart(envs[1..], quote)
  }

  function ArgPart(args: seq<string>, quote: string -> string): string {
    if args == [] then [] else " " + quote(args[0]) + ArgPart(args[1..], quote)
  }

  function CwdPart(cwd: Option<string>, quote: string -> string): string {
    if cwd.None? then [] else "cd " + quote(cwd.value) + " && "
  }

  function Render(program: string, args: seq<string>, envs: seq<Env>, cwd: Option<string>, quote: string -> string): string {
    CwdPart(cwd, quote) + EnvPart(envs, quote) + quote(program) + ArgPart(args, quote)
  }

  function RemoteCommand(program: string, args: seq<string>, envs: seq<Env>, cwd: Option<string>): string {
    Render(program, args, envs, cwd, ShellQuote)
  }

  lemma {:induction false} EnvPartGrows(envs: seq<Env>, e: Env, quote: string -> string)
    ensures EnvPart(envs + [e], quote) == EnvPart(envs, quote) + (e.0 + "=" + quote(e.1) + " ")
  {
    if envs == [] {
      assert envs + [e] == [e] && [e][1..] == [];
      assert EnvPart([e], quote) == e.0 + "=" + quote(e.1) + " " + EnvPart([], quote);
    } else {
      assert (envs + [e])[1..] == envs[1..] + [e];
      EnvPartGrows(envs[1..], e, quote);
    }
  }

  lemma {:induction false} ArgPartGrows(args: seq<string>, a: string, quote: string -> string)
    ensures ArgPart(args + [a], quote) == ArgPart(args, quote) + (" " + quote(a))
  {
    if args == [] {
      assert args + [a] == [a] && [a][1..] == [];
      assert ArgPart([a], quote) == " " + quote(a) + ArgPart([], quote);
    } else {
      assert (args + [a])[1..] == args[1..] + [a];
      ArgPartGrows(args[1..], a, quote);
    }
  }

  method PushEnvs(command: string, envs: seq<Env>, quote: string -> string) returns (longer: string)
    ensures longer == command + EnvPart(envs, quote)
  {
    longer := command;
    var i := 0;
    while i < |envs|
      invariant 0 <= i <= |envs|
      invariant longer == command + EnvPart(envs[..i], quote)
    {
      EnvPartGrows(envs[..i], envs[i], quote);
      assert envs[..i] + [envs[i]] == envs[..i + 1];
      longer := longer + (envs[i].0 + "=" + quote(envs[i].1) + " ");
      i := i + 1;
    }
    assert envs[..i] == envs;
  }

  method PushArgs(command: string, args: seq<string>, quote: string -> string) returns (longer: string)
    ensures longer == command + ArgPart(args, quote)
  {
    longer := command;
    var i := 0;
    while i < |args|
      invariant 0 <= i <= |args|
      invariant longer == command + ArgPart(args[..i], quote)
    {
      ArgPartGrows(args[..i], args[i], quote);
      assert args[..i] + [args[i]] == args[..i + 1];
      longer := longer + (" " + quote(args[i]));
      i := i + 1;
    }
    assert args[..i] == args;
  }

  /** `remote_command`. */
  method BuildRemoteCommand(program: string, args: seq<string>, envs: seq<Env>, cwd: Option<string>) returns (command: string)
    ensures command == RemoteCommand(program, args, envs, cwd)
  {
    command := "";
    if cwd.Some? {
      command := "cd " + ShellQuote(cwd.value) + " && ";
    }
    command := PushEnvs(command, envs, ShellQuote);
    command := command + ShellQuote(program);
    command := PushArgs(command, args, ShellQuote);
  }

  // ---------------------------------------------------------------------------
  // The reader

  /** A character of a word, and whether quoting stripped it of special meaning. */
  datatype QChar = QChar(c: char, quoted: bool)

  type RawWord = seq<QChar>

  datatype Token = Word(chars: RawWord) | Operator(text: string)

  /** Unquoted, these begin a comment, an expansion, a pattern or a double quote: refused. */
  predicate IsRefused(c: char) {
    c == '$' || c == '`' || c == '"' || c == '*' || c == '?' || c == '[' || c == '~' || c == '#'
  }

  predicate IsOperatorChar(c: char) {
    c == '&' || c == '|' || c == ';' || c == '<' || c == '>' || c == '(' || c == ')' || c == '\n'
  }

  /** `&&`, `||`, `;;`, `<<`, `>>`, `<&`, `>&`, `<>` and `>|`. */
  predicate IsTwoCharOperator(a: char, b: char) {
    || (a == b && (a == '&' || a == '|' || a == ';' || a == '<' || a == '>'))
    || ((a == '<' || a == '>') && b == '&') || (a == '<' && b == '>') || (a == '>' && b == '|')
  }

  function Flush(word: Option<RawWord>): seq<Token> {
    if word.Some? then [Word(word.value)] else []
  }

  function Prepend(ts: seq<Token>, rest: Option<seq<Token>>): Option<seq<Token>> {
    if rest.Some? then Some(ts + rest.value) else None
  }

  function Extend(word: Option<RawWord>, c: char, quoted: bool): Option<RawWord> {
    Some(word.GetOr([]) + [QChar(c, quoted)])
  }

  /**
   Token recognition from left to right (section 2.3). `quoted` is inside single
   quotes (section 2.2.2); `word` is the word being collected. `None` is a text
   with an open quote or a construct the reader refuses.
   */
  function Lex(s: string, quoted: bool, word: Option<RawWord>): Option<seq<Token>> {
    if quoted then
      if s == [] then None
      else if s[0] == '\'' then Lex(s[1..], false, Some(word.GetOr([])))
      else Lex(s[1..], true, Extend(word, s[0], true))
    else if s == [] then Some(Flush(word))
    else if s[0] == '\'' then Lex(s[1..], true, Some(word.GetOr([])))
    else if s[0] == '\\' then
      if |s| < 2 then None
      else if s[1] == '\n' then Lex(s[2..], false, word)
      else Lex(s[2..], false, Extend(word, s[1], true))
    else if s[0] == ' ' || s[0] == '\t' then Prepend(Flush(word), Lex(s[1..], false, None))
    else if IsOperatorChar(s[0]) then
      if |s| >= 2 && IsTwoCharOperator(s[0], s[1]) then Prepend(Flush(word) + [Operator(s[..2])], Lex(s[2..], false, None))
      else Prepend(Flush(word) + [Operator(s[..1])], Lex(s[1..], false, None))
    else if IsRefused(s[0]) then None
    else Lex(s[1..], false, Extend(word, s[0], false))
  }

  /** Quote removal. */
  function RemoveQuotes(w: RawWord): (r: string)
    ensures |r| == |w| && forall i :: 0 <= i < |w| ==> r[i] == w[i].c
  {
    seq(|w|, i requires 0 <= i < |w| => w[i].c)
  }

  predicate IsNameChar(c: char) {
    IsAlnum(c) || c == '_'
  }

  /** A shell name: letters, digits and underscores, not beginning with a digit. */
  predicate IsName(s: string) {
    s != [] && !IsDigit(s[0]) && forall i | 0 <= i < |s| :: IsNameChar(s[i])
  }

  /** The index of the first unquoted `=`, or the length. */
  function EqualsAt(w: RawWord): (k: nat)
    ensures k <= |w|
    ensures forall i :: 0 <= i < k ==> w[i] != QChar('=', false)
    ensures k < |w| ==> w[k] == QChar('=', false)
  {
    if w == [] || w[0] == QChar('=', false) then 0 else 1 + EqualsAt(w[1..])
  }

  /** An assignment word: a name, no character of it quoted, then an unquoted `=` (section 2.10.2, rule 7). */
  predicate IsAssignment(w: RawWord) {
    var k := EqualsAt(w);
    k < |w| && IsName(RemoveQuotes(w[..k])) && forall i | 0 <= i < k :: !w[i].quoted
  }

  function AssignmentOf(w: RawWord): Env
    requires IsAssignment(w)
  {
    var k := EqualsAt(w);
    (RemoveQuotes(w[..k]), RemoveQuotes(w[k + 1..]))
  }

  const RESERVED: seq<string> :=
    ["!", "{", "}", "case", "do", "done", "elif", "else", "esac", "fi", "for", "if", "in", "then", "until", "while"]

  /** A reserved word, no character of it quoted (section 2.4). */
  predicate IsReserved(w: RawWord) {
    RemoveQuotes(w) in RESERVED && forall i | 0 <= i < |w| :: !w[i].quoted
  }

  /** A simple command: its assignments, then its words. */
  datatype Command = Command(envs: seq<Env>, argv: seq<string>)

  function Argv(ts: seq<Token>): Option<seq<string>> {
    if ts == [] then Some([])
    else if ts[0].Operator? then None
    else
      var rest := Argv(ts[1..]);
      if rest.None? then None else Some([RemoveQuotes(ts[0].chars)] + rest.value)
  }

  /** Assignments are recognised up to the first word that is none (section 2.9.1). */
  function Simple(ts: seq<Token>): Option<Command> {
    if ts == [] then Some(Command([], []))
    else if ts[0].Word? && IsAssignment(ts[0].chars) then
      var rest := Simple(ts[1..]);
      if rest.None? then None
      else Some(Command([AssignmentOf(ts[0].chars)] + rest.value.envs, rest.value.argv))
    else
      var argv := Argv(ts);
      if argv.None? then None else Some(Command([], argv.value))
  }

  /** A reserved word in command position is not a simple command. */
  function SimpleCommand(ts: seq<Token>): Option<Command> {
    if ts != [] && ts[0].Word? && IsReserved(ts[0].chars) then None else Simple(ts)
  }

  const AND := Operator("&&")

  function FindAnd(ts: seq<Token>): (k: nat)
    ensures k <= |ts|
  {
    if ts == [] || ts[0] == AND then 0 else 1 + FindAnd(ts[1..])
  }

  /** An and-list of simple commands. */
  function AndList(ts: seq<Token>): Option<seq<Command>>
    decreases |ts|
  {
    var k := FindAnd(ts);
    var first := SimpleCommand(ts[..k]);
    if first.None? then None
    else if k == |ts| then Some([first.value])
    else
      var rest := AndList(ts[k + 1..]);
      if rest.None? then None else Some([first.value] + rest.value)
  }

  /** What the login shell reads. */
  function Read(text: string): Option<seq<Command>> {
    var ts := Lex(text, false, None);
    if ts.None? then None else AndList(ts.value)
  }

  // ---------------------------------------------------------------------------
  // Quoting is read back

  /** The word a quoted value is collected as. */
  function Quoted(value: string): (w: RawWord)
    ensures |w| == |value| && forall i :: 0 <= i < |w| ==> w[i] == QChar(value[i], !IsSafe(value))
  {
    seq(|value|, i requires 0 <= i < |value| => QChar(value[i], !IsSafe(value)))
  }

  function Marked(value: string, quoted: bool): (w: RawWord)
    ensures |w| == |value| && forall i :: 0 <= i < |w| ==> w[i] == QChar(value[i], quoted)
  {
    seq(|value|, i requires 0 <= i < |value| => QChar(value[i], quoted))
  }

  lemma SafeIsPlain(c: char)
    requires IsSafeChar(c)
    ensures !IsRefused(c) && !IsOperatorChar(c) && c != '\'' && c != '\\' && c != ' ' && c != '\t'
  {
  }

  lemma {:induction false} LexBare(value: string, rest: string, word: Option<RawWord>)
    requires forall i :: 0 <= i < |value| ==> IsSafeChar(value[i])
    requires value != [] || word.Some?
    ensures Lex(value + rest, false, word) == Lex(rest, false, Some(word.GetOr([]) + Marked(value, false)))
  {
    if value == [] {
      assert value + rest == rest && word.value + Marked(value, false) == word.value;
    } else {
      SafeIsPlain(value[0]);
      assert (value + rest)[1..] == value[1..] + rest;
      var next := Extend(word, value[0], false);
      LexBare(value[1..], rest, next);
      assert next.value + Marked(value[1..], false) == word.GetOr([]) + Marked(value, false);
    }
  }

  /** Close the quotes, one escaped quote, open them again. */
  lemma LexReopen(tail: string, word: RawWord)
    ensures Lex("'" + ("\\''" + tail), true, Some(word)) == Lex(tail, true, Some(word + [QChar('\'', true)]))
  {
    var reopened := "'" + tail;
    var escape := "\\''" + tail;
    calc {
      Lex("'" + escape, true, Some(word));
      { assert ("'" + escape)[1..] == escape; }
      Lex(escape, false, Some(word));
      { assert escape[0] == '\\' && escape[1] == '\'' && escape[2..] == reopened; }
      Lex(reopened, false, Some(word + [QChar('\'', true)]));
      { assert reopened[1..] == tail; }
      Lex(tail, true, Some(word + [QChar('\'', true)]));
    }
  }

  lemma {:induction false} LexEscaped(value: string, rest: string, word: RawWord)
    ensures Lex(Replace(value, '\'', ESCAPED_QUOTE) + "'" + rest, true, Some(word))
            == Lex(rest, false, Some(word + Marked(value, true)))
  {
    var body := Replace(value, '\'', ESCAPED_QUOTE) + "'" + rest;
    if value == [] {
      assert body[0] == '\'' && body[1..] == rest && word + Marked(value, true) == word;
    } else {
      var tail := Replace(value[1..], '\'', ESCAPED_QUOTE) + "'" + rest;
      var next := word + [QChar(value[0], true)];
      LexEscaped(value[1..], rest, next);
      assert next + Marked(value[1..], true) == word + Marked(value, true);
      if value[0] == '\'' {
        assert body == "'" + ("\\''" + tail);
        LexReopen(tail, word);
      } else {
        assert body == [value[0]] + tail && body[1..] == tail;
      }
    }
  }

  /** The tokenizer collects a quoted value as one word with exactly its characters. */
  lemma LexQuote(value: string, rest: string, word: Option<RawWord>)
    ensures Lex(ShellQuote(value) + rest, false, word) == Lex(rest, false, Some(word.GetOr([]) + Quoted(value)))
  {
    if IsSafe(value) {
      LexBare(value, rest, word);
      assert Marked(value, false) == Quoted(value);
    } else {
      var body := Replace(value, '\'', ESCAPED_QUOTE) + "'" + rest;
      assert ShellQuote(value) + rest == "'" + body;
      assert ("'" + body)[1..] == body;
      LexEscaped(value, rest, word.GetOr([]));
      assert Marked(value, true) == Quoted(value);
    }
  }

  // ---------------------------------------------------------------------------
  // The whole command

  function ArgWords(args: seq<string>): (ts: seq<Token>)
    ensures |ts| == |args| && forall i :: 0 <= i < |ts| ==> ts[i] == Word(Quoted(args[i]))
  {
    seq(|args|, i requires 0 <= i < |args| => Word(Quoted(args[i])))
  }

  function EnvWord(e: Env): RawWord {
    Marked(e.0, false) + [QChar('=', false)] + Quoted(e.1)
  }

  function EnvWords(envs: seq<Env>): (ts: seq<Token>)
    ensures |ts| == |envs| && forall i :: 0 <= i < |ts| ==> ts[i] == Word(EnvWord(envs[i]))
  {
    seq(|envs|, i requires 0 <= i < |envs| => Word(EnvWord(envs[i])))
  }

  // The laws of the reader the rest needs, one construct each.

  lemma LexBlank(rest: string, word: Option<RawWord>)
    ensures Lex(" " + rest, false, word) == Prepend(Flush(word), Lex(rest, false, None))
  {
    assert (" " + rest)[1..] == rest;
  }

  lemma LexAnd(rest: string)
    ensures Lex("&&" + rest, false, None) == Prepend([AND], Lex(rest, false, None))
  {
    assert ("&&" + rest)[..2] == "&&" && ("&&" + rest)[2..] == rest;
    assert Flush(None) + [AND] == [AND];
  }

  lemma LexWord(value: string, rest: string)
    ensures Lex(ShellQuote(value) + rest, false, None) == Lex(rest, false, Some(Quoted(value)))
  {
    LexQuote(value, rest, None);
    assert [] + Quoted(value) == Quoted(value);
  }

  lemma PrependTwice(a: seq<Token>, b: seq<Token>, r: Option<seq<Token>>)
    ensures Prepend(a, Prepend(b, r)) == Prepend(a + b, r) && Prepend([], r) == r
  {
    if r.Some? {
      assert a + (b + r.value) == a + b + r.value && [] + r.value == r.value;
    }
  }

  /** A finished word, then the arguments. */
  lemma {:induction false} LexArgs(args: seq<string>, word: RawWord)
    ensures Lex(ArgPart(args, ShellQuote), false, Some(word)) == Some([Word(word)] + ArgWords(args))
  {
    if args == [] {
      assert [Word(word)] + ArgWords(args) == Flush(Some(word));
    } else {
      var rest := ArgPart(args[1..], ShellQuote);
      var q := ShellQuote(args[0]);
      calc {
        Lex(ArgPart(args, ShellQuote), false, Some(word));
        { assert ArgPart(args, ShellQuote) == " " + (q + rest); }
        Lex(" " + (q + rest), false, Some(word));
        { LexBlank(q + rest, Some(word)); }
        Prepend([Word(word)], Lex(q + rest, false, None));
        { LexWord(args[0], rest); }
        Prepend([Word(word)], Lex(rest, false, Some(Quoted(args[0]))));
        { LexArgs(args[1..], Quoted(args[0])); }
        Some([Word(word)] + ([Word(Quoted(args[0]))] + ArgWords(args[1..])));
        { assert [Word(Quoted(args[0]))] + ArgWords(args[1..]) == ArgWords(args); }
        Some([Word(word)] + ArgWords(args));
      }
    }
  }

  /** A key no character of which means anything to the tokenizer. Shell names are such. */
  predicate IsBare(key: string) {
    forall i | 0 <= i < |key| :: IsSafeChar(key[i])
  }

  lemma LexEnv(e: Env, rest: string)
    requires IsBare(e.0)
    ensures Lex(e.0 + "=" + ShellQuote(e.1) + " " + rest, false, None) == Prepend([Word(EnvWord(e))], Lex(rest, false, None))
  {
    var q := ShellQuote(e.1);
    var key := e.0 + "=";
    calc {
      Lex(key + q + " " + rest, false, None);
      { assert key + q + " " + rest == key + (q + (" " + rest)); }
      Lex(key + (q + (" " + rest)), false, None);
      { LexBare(key, q + (" " + rest), None);
        assert [] + Marked(key, false) == Marked(e.0, false) + [QChar('=', false)]; }
      Lex(q + (" " + rest), false, Some(Marked(e.0, false) + [QChar('=', false)]));
      { LexQuote(e.1, " " + rest, Some(Marked(e.0, false) + [QChar('=', false)])); }
      Lex(" " + rest, false, Some(EnvWord(e)));
      { LexBlank(rest, Some(EnvWord(e))); }
      Prepend([Word(EnvWord(e))], Lex(rest, false, None));
    }
  }

  lemma EnvWordsCons(envs: seq<Env>)
    requires envs != []
    ensures EnvWords(envs) == [Word(EnvWord(envs[0]))] + EnvWords(envs[1..])
  {
  }

  lemma {:induction false} LexEnvs(envs: seq<Env>, rest: string)
    requires forall i :: 0 <= i < |envs| ==> IsBare(envs[i].0)
    ensures Lex(EnvPart(envs, ShellQuote) + rest, false, None) == Prepend(EnvWords(envs), Lex(rest, false, None))
  {
    if envs == [] {
      assert EnvPart(envs, ShellQuote) + rest == rest && EnvWords(envs) == [];
      PrependTwice([], [], Lex(rest, false, None));
    } else {
      var e := envs[0];
      var tail := EnvPart(envs[1..], ShellQuote) + rest;
      calc {
        Lex(EnvPart(envs, ShellQuote) + rest, false, None);
        { Assoc(e.0 + "=" + ShellQuote(e.1) + " ", EnvPart(envs[1..], ShellQuote), rest); }
        Lex(e.0 + "=" + ShellQuote(e.1) + " " + tail, false, None);
        { LexEnv(e, tail); }
        Prepend([Word(EnvWord(e))], Lex(tail, false, None));
        { LexEnvs(envs[1..], rest); }
        Prepend([Word(EnvWord(e))], Prepend(EnvWords(envs[1..]), Lex(rest, false, None)));
        { PrependTwice([Word(EnvWord(e))], EnvWords(envs[1..]), Lex(rest, false, None));
          EnvWordsCons(envs); }
        Prepend(EnvWords(envs), Lex(rest, false, None));
      }
    }
  }

  lemma LexThen(word: RawWord, rest: string)
    ensures Lex(" " + ("&&" + (" " + rest)), false, Some(word)) == Prepend([Word(word), AND], Lex(rest, false, None))
  {
    calc {
      Lex(" " + ("&&" + (" " + rest)), false, Some(word));
      { LexBlank("&&" + (" " + rest), Some(word)); }
      Prepend([Word(word)], Lex("&&" + (" " + rest), false, None));
      { LexAnd(" " + rest); }
      Prepend([Word(word)], Prepend([AND], Lex(" " + rest, false, None)));
      { LexBlank(rest, None); PrependTwice([], [], Lex(rest, false, None)); }
      Prepend([Word(word)], Prepend([AND], Lex(rest, false, None)));
      { PrependTwice([Word(word)], [AND], Lex(rest, false, None)); assert [Word(word)] + [AND] == [Word(word), AND]; }
      Prepend([Word(word), AND], Lex(rest, false, None));
    }
  }

  lemma LexCd(rest: string)
    ensures Lex("cd " + rest, false, None) == Prepend([Word(Marked("cd", false))], Lex(rest, false, None))
  {
    var cd := Marked("cd", false);
    assert "cd " + rest == "cd" + (" " + rest);
    LexBare("cd", " " + rest, None);
    assert [] + cd == cd;
    LexBlank(rest, Some(cd));
  }

  lemma CdText(q: string, rest: string)
    ensures "cd " + q + " && " + rest == "cd " + (q + (" " + ("&&" + (" " + rest))))
  {
    assert " && " == " " + "&&" + " ";
  }

  lemma LexCwd(dir: string, rest: string)
    ensures Lex(CwdPart(Some(dir), ShellQuote) + rest, false, None) == Prepend(CwdTokens(Some(dir)), Lex(rest, false, None))
  {
    var q := ShellQuote(dir);
    var tail := " " + ("&&" + (" " + rest));
    var cd := Marked("cd", false);
    calc {
      Lex(CwdPart(Some(dir), ShellQuote) + rest, false, None);
      { CdText(q, rest); }
      Lex("cd " + (q + tail), false, None);
      { LexCd(q + tail); }
      Prepend([Word(cd)], Lex(q + tail, false, None));
      { LexWord(dir, tail); LexThen(Quoted(dir), rest); }
      Prepend([Word(cd)], Prepend([Word(Quoted(dir)), AND], Lex(rest, false, None)));
      { PrependTwice([Word(cd)], [Word(Quoted(dir)), AND], Lex(rest, false, None));
        assert [Word(cd)] + [Word(Quoted(dir)), AND] == CwdTokens(Some(dir)); }
      Prepend(CwdTokens(Some(dir)), Lex(rest, false, None));
    }
  }

  function CwdTokens(cwd: Option<string>): seq<Token> {
    if cwd.None? then [] else [Word(Marked("cd", false)), Word(Quoted(cwd.value)), AND]
  }

  function CommandWords(program: string, args: seq<string>, envs: seq<Env>): seq<Token> {
    EnvWords(envs) + ([Word(Quoted(program))] + ArgWords(args))
  }

  lemma LexBody(program: string, args: seq<string>, envs: seq<Env>)
    requires forall i :: 0 <= i < |envs| ==> IsBare(envs[i].0)
    ensures Lex(EnvPart(envs, ShellQuote) + (ShellQuote(program) + ArgPart(args, ShellQuote)), false, None)
         == Some(CommandWords(program, args, envs))
  {
    var q := ShellQuote(program);
    var a := ArgPart(args, ShellQuote);
    calc {
      Lex(EnvPart(envs, ShellQuote) + (q + a), false, None);
      { LexEnvs(envs, q + a); }
      Prepend(EnvWords(envs), Lex(q + a, false, None));
      { LexWord(program, a); LexArgs(args, Quoted(program)); }
      Some(CommandWords(program, args, envs));
    }
  }

  /** The token sequence of a rendered command. */
  lemma LexCommand(program: string, args: seq<string>, envs: seq<Env>, cwd: Option<string>)
    requires forall i :: 0 <= i < |envs| ==> IsBare(envs[i].0)
    ensures Lex(RemoteCommand(program, args, envs, cwd), false, None) == Some(CwdTokens(cwd) + CommandWords(program, args, envs))
  {
    var body := EnvPart(envs, ShellQuote) + (ShellQuote(program) + ArgPart(args, ShellQuote));
    RenderShape(program, args, envs, cwd, ShellQuote);
    LexBody(program, args, envs);
    LexAfterCwd(cwd, body, CommandWords(program, args, envs));
  }

  lemma RenderShape(program: string, args: seq<string>, envs: seq<Env>, cwd: Option<string>, quote: string -> string)
    ensures Render(program, args, envs, cwd, quote)
         == CwdPart(cwd, quote) + (EnvPart(envs, quote) + (quote(program) + ArgPart(args, quote)))
  {
    Assoc(CwdPart(cwd, quote), EnvPart(envs, quote), quote(program));
    Assoc(CwdPart(cwd, quote), EnvPart(envs, quote) + quote(program), ArgPart(args, quote));
    Assoc(EnvPart(envs, quote), quote(program), ArgPart(args, quote));
  }

  lemma LexAfterCwd(cwd: Option<string>, body: string, tokens: seq<Token>)
    requires Lex(body, false, None) == Some(tokens)
    ensures Lex(CwdPart(cwd, ShellQuote) + body, false, None) == Some(CwdTokens(cwd) + tokens)
  {
    if cwd.None? {
      assert CwdPart(cwd, ShellQuote) + body == body && CwdTokens(cwd) + tokens == tokens;
    } else {
      LexCwd(cwd.value, body);
    }
  }

  lemma TextOfQuoted(value: string)
    ensures RemoveQuotes(Quoted(value)) == value && forall q :: RemoveQuotes(Marked(value, q)) == value
  {
    forall q ensures RemoveQuotes(Marked(value, q)) == value {
    }
  }

  lemma {:induction false} ArgvOfWords(args: seq<string>)
    ensures Argv(ArgWords(args)) == Some(args)
  {
    if args != [] {
      TextOfQuoted(args[0]);
      assert ArgWords(args)[1..] == ArgWords(args[1..]);
      ArgvOfWords(args[1..]);
      assert [args[0]] + args[1..] == args;
    }
  }

  lemma {:induction false} EqualsIn(w: RawWord, k: nat)
    requires k < |w| && w[k] == QChar('=', false) && forall i :: 0 <= i < k ==> w[i] != QChar('=', false)
    ensures EqualsAt(w) == k
  {
    if k > 0 {
      EqualsIn(w[1..], k - 1);
    }
  }

  lemma EnvWordIsAssignment(e: Env)
    requires IsName(e.0)
    ensures IsAssignment(EnvWord(e)) && AssignmentOf(EnvWord(e)) == e
  {
    var w := EnvWord(e);
    var k := |e.0|;
    assert forall i :: 0 <= i < k ==> w[i] == QChar(e.0[i], false) && IsNameChar(e.0[i]);
    EqualsIn(w, k);
    assert w[..k] == Marked(e.0, false) && w[k + 1..] == Quoted(e.1);
    TextOfQuoted(e.0);
    TextOfQuoted(e.1);
  }

  /** Left bare, the program reads as an assignment. */
  predicate LooksAssigned(program: string) {
    IsSafe(program) && IsAssignment(Quoted(program))
  }

  /** Left bare with nothing before it, the program reads as a reserved word. */
  predicate LooksReserved(program: string, envs: seq<Env>) {
    envs == [] && IsSafe(program) && program in RESERVED
  }

  lemma NamesAreBare(key: string)
    requires IsName(key)
    ensures IsBare(key)
  {
    forall i | 0 <= i < |key| ensures IsSafeChar(key[i]) {
      assert IsNameChar(key[i]);
    }
  }

  lemma SimpleCons(w: RawWord, rest: seq<Token>)
    requires IsAssignment(w)
    ensures var r := Simple(rest);
            Simple([Word(w)] + rest) == if r.None? then None else Some(Command([AssignmentOf(w)] + r.value.envs, r.value.argv))
  {
    assert ([Word(w)] + rest)[1..] == rest;
  }

  lemma FirstEnv(envs: seq<Env>, r: Option<Command>, argv: seq<string>)
    requires envs != []
    ensures (r.Some? && Command([envs[0]] + r.value.envs, r.value.argv) == Command(envs, argv)) <==> r == Some(Command(envs[1..], argv))
  {
    assert envs == [envs[0]] + envs[1..];
    if r.Some? && [envs[0]] + r.value.envs == envs {
      assert r.value.envs == envs[1..];
    }
  }

  lemma {:induction false} SimpleOfWords(envs: seq<Env>, program: string, args: seq<string>)
    requires forall i :: 0 <= i < |envs| ==> IsName(envs[i].0)
    ensures var r := Simple(CommandWords(program, args, envs));
            r == Some(Command(envs, [program] + args)) <==> !LooksAssigned(program)
  {
    var words := [Word(Quoted(program))] + ArgWords(args);
    var ts := EnvWords(envs) + words;
    if envs == [] {
      assert ts == words;
      if IsAssignment(Quoted(program)) {
        var rest := Simple(ts[1..]);
        assert rest.Some? ==> |Simple(ts).value.envs| > 0;
        QuotedIsNoAssignment(program);
      } else {
        TextOfQuoted(program);
        assert words[1..] == ArgWords(args);
        ArgvOfWords(args);
      }
    } else {
      EnvWordIsAssignment(envs[0]);
      EnvWordsCons(envs);
      Assoc([Word(EnvWord(envs[0]))], EnvWords(envs[1..]), words);
      SimpleCons(EnvWord(envs[0]), EnvWords(envs[1..]) + words);
      SimpleOfWords(envs[1..], program, args);
      FirstEnv(envs, Simple(EnvWords(envs[1..]) + words), [program] + args);
    }
  }

  lemma QuotedIsNoAssignment(value: string)
    ensures IsAssignment(Quoted(value)) ==> IsSafe(value)
  {
  }

  lemma {:induction false} NoAndIn(ts: seq<Token>)
    requires forall i :: 0 <= i < |ts| ==> ts[i].Word?
    ensures FindAnd(ts) == |ts|
  {
    if ts != [] {
      NoAndIn(ts[1..]);
    }
  }

  lemma ReservedMeans(w: RawWord, value: string, q: bool)
    requires w == Marked(value, q)
    ensures IsReserved(w) <==> value in RESERVED && (!q || value == [])
  {
    TextOfQuoted(value);
    assert q && value != [] ==> w[0].quoted;
  }

  lemma LastReserved(program: string, args: seq<string>, envs: seq<Env>)
    requires forall i :: 0 <= i < |envs| ==> IsName(envs[i].0)
    ensures var tokens := CommandWords(program, args, envs);
            IsReserved(tokens[0].chars) <==> LooksReserved(program, envs)
  {
    if envs == [] {
      assert Quoted(program) == Marked(program, !IsSafe(program));
      ReservedMeans(Quoted(program), program, !IsSafe(program));
    } else {
      var w := EnvWord(envs[0]);
      assert RemoveQuotes(w)[|envs[0].0|] == '=';
      NoEqualsInReserved(RemoveQuotes(w), |envs[0].0|);
    }
  }

  lemma NoEqualsInReserved(s: string, i: nat)
    requires i < |s| && s[i] == '='
    ensures s !in RESERVED
  {
  }

  lemma AndListOne(ts: seq<Token>)
    requires forall i :: 0 <= i < |ts| ==> ts[i].Word?
    ensures AndList(ts) == if SimpleCommand(ts).None? then None else Some([SimpleCommand(ts).value])
  {
    NoAndIn(ts);
    assert ts[..|ts|] == ts;
  }

  lemma AndListTwo(head: seq<Token>, tail: seq<Token>)
    requires |head| == 2 && head[0].Word? && head[1].Word? && SimpleCommand(head).Some?
    ensures var rest := AndList(tail);
            AndList(head + ([AND] + tail)) == if rest.None? then None else Some([SimpleCommand(head).value] + rest.value)
  {
    FindAndAfter(head, tail);
    var all := head + ([AND] + tail);
    assert all[..2] == head && all[3..] == tail;
  }

  /** The and-list read back from the tokens: the directory change, then the command. */
  lemma AndListOfTokens(program: string, args: seq<string>, envs: seq<Env>, cwd: Option<string>)
    requires forall i :: 0 <= i < |envs| ==> IsName(envs[i].0)
    ensures var tokens := CommandWords(program, args, envs);
            var last := SimpleCommand(tokens);
            AndList(CwdTokens(cwd) + tokens)
            == if last.None? then None
               else Some((if cwd.None? then [] else [Command([], ["cd", cwd.value])]) + [last.value])
  {
    var tokens := CommandWords(program, args, envs);
    AndListOne(tokens);
    if cwd.None? {
      assert CwdTokens(cwd) + tokens == tokens;
      var last := SimpleCommand(tokens);
      assert last.Some? ==> [] + [last.value] == [last.value];
    } else {
      AndListAfterCd(cwd.value, tokens);
    }
  }

  lemma AndListAfterCd(dir: string, tokens: seq<Token>)
    ensures var rest := AndList(tokens);
            AndList(CwdTokens(Some(dir)) + tokens) == if rest.None? then None else Some([Command([], ["cd", dir])] + rest.value)
  {
    var head := [Word(Marked("cd", false)), Word(Quoted(dir))];
    assert CwdTokens(Some(dir)) + tokens == head + ([AND] + tokens);
    CdReads(dir);
    AndListTwo(head, tokens);
  }

  lemma FindAndAfter(head: seq<Token>, tail: seq<Token>)
    requires |head| == 2 && head[0].Word? && head[1].Word?
    ensures FindAnd(head + ([AND] + tail)) == 2
  {
    var ts := head + ([AND] + tail);
    assert ts[0].Word? && ts[1..][0].Word? && ts[1..][1..] == [AND] + tail;
    assert FindAnd(ts[1..][1..]) == 0;
  }

  lemma CdReads(dir: string)
    ensures SimpleCommand([Word(Marked("cd", false)), Word(Quoted(dir))]) == Some(Command([], ["cd", dir]))
  {
    var cd := Marked("cd", false);
    var ts := [Word(cd), Word(Quoted(dir))];
    assert cd[0] == QChar('c', false) && cd[1] == QChar('d', false);
    assert EqualsAt(cd) == |cd|;
    ReservedMeans(cd, "cd", false);
    assert "cd" !in RESERVED;
    assert Simple(ts) == if Argv(ts).None? then None else Some(Command([], Argv(ts).value));
    assert ts[1..] == ArgWords([dir]);
    ArgvOfWords([dir]);
    TextOfQuoted("cd");
    assert RemoveQuotes(cd) == "cd" && ["cd"] + [dir] == ["cd", dir];
  }

  /**
   For every directory, environment, program and argument list, the shell reads
   the rendered text as exactly `cd dir`, then the command with its environment,
   program and arguments in order, if and only if every environment key is a
   shell name and the program, when it is left bare, is neither an assignment
   word nor, with no assignment before it, a reserved word.
   */
  lemma ReadsBack(program: string, args: seq<string>, envs: seq<Env>, cwd: Option<string>)
    ensures Read(RemoteCommand(program, args, envs, cwd))
            == Some((if cwd.None? then [] else [Command([], ["cd", cwd.value])]) + [Command(envs, [program] + args)])
            <==>
            && (forall i :: 0 <= i < |envs| ==> IsName(envs[i].0))
            && !LooksAssigned(program) && !LooksReserved(program, envs)
  {
    var goal := (if cwd.None? then [] else [Command([], ["cd", cwd.value])]) + [Command(envs, [program] + args)];
    if forall i :: 0 <= i < |envs| ==> IsName(envs[i].0) {
      forall i | 0 <= i < |envs| ensures IsBare(envs[i].0) {
        NamesAreBare(envs[i].0);
      }
      LexCommand(program, args, envs, cwd);
      AndListOfTokens(program, args, envs, cwd);
      SimpleOfWords(envs, program, args);
      LastReserved(program, args, envs);
      var tokens := CommandWords(program, args, envs);
      var last := SimpleCommand(tokens);
      if last.Some? {
        var got := (if cwd.None? then [] else [Command([], ["cd", cwd.value])]) + [last.value];
        assert got[|got| - 1] == last.value && goal[|goal| - 1] == Command(envs, [program] + args);
      }
    } else if Read(RemoteCommand(program, args, envs, cwd)) == Some(goal) {
      var ts := Lex(RemoteCommand(program, args, envs, cwd), false, None).value;
      AndListNames(ts, |goal| - 1);
    }
  }

  /**
   Why the program must not look like an assignment: the text is then the very text
   of another command, with the program for a variable and the first argument run.
   */
  lemma AssignedProgramIsLost(key: string, value: string, first: string, args: seq<string>, envs: seq<Env>, cwd: Option<string>)
    requires IsSafe(key + "=" + value) && IsSafe(value)
    ensures RemoteCommand(key + "=" + value, [first] + args, envs, cwd) == RemoteCommand(first, args, envs + [(key, value)], cwd)
  {
    SameText(key, value, first, args, envs, cwd, ShellQuote);
  }

  lemma SameText(key: string, value: string, first: string, args: seq<string>, envs: seq<Env>, cwd: Option<string>, quote: string -> string)
    requires quote(key + "=" + value) == key + "=" + value && quote(value) == value
    ensures Render(key + "=" + value, [first] + args, envs, cwd, quote) == Render(first, args, envs + [(key, value)], cwd, quote)
  {
    EnvPartGrows(envs, (key, value), quote);
    assert ([first] + args)[1..] == args;
    assert ArgPart([first] + args, quote) == " " + quote(first) + ArgPart(args, quote);
    Rejoined(CwdPart(cwd, quote), EnvPart(envs, quote), key + "=" + value, " ", quote(first), ArgPart(args, quote));
  }

  lemma Rejoined<T>(a: seq<T>, b: seq<T>, c: seq<T>, d: seq<T>, e: seq<T>, f: seq<T>)
    ensures a + b + c + (d + e + f) == a + (b + (c + d)) + e + f
  {
  }

  /** What the shell then runs: not the program but the first argument, with one more variable. */
  lemma BareAssignment(key: string, value: string, first: string, args: seq<string>, cwd: Option<string>)
    requires IsName(key) && IsSafe(key + "=" + value) && IsSafe(value) && !LooksAssigned(first)
    ensures LooksAssigned(key + "=" + value)
    ensures Read(RemoteCommand(key + "=" + value, [first] + args, [], cwd))
         == Some((if cwd.None? then [] else [Command([], ["cd", cwd.value])]) + [Command([(key, value)], [first] + args)])
  {
    var w := EnvWord((key, value));
    assert w == Quoted(key + "=" + value);
    EnvWordIsAssignment((key, value));
    AssignedProgramIsLost(key, value, first, args, [], cwd);
    var none: seq<Env> := [];
    assert none + [(key, value)] == [(key, value)];
    ReadsBack(first, args, [(key, value)], cwd);
  }

  /** One such command: `A=b` with the argument `c`. */
  lemma BareAssignmentExample()
    ensures "A=b" == "A" + "=" + "b" && IsName("A") && IsSafe("A=b") && IsSafe("b") && !LooksAssigned("c")
  {
    var c := Quoted("c");
    assert |c| == 1 && c[0] == QChar('c', false);
    assert EqualsAt(c) == 1 + EqualsAt(c[1..]);
  }

  /** Whatever the text, every assignment the reader reports has a shell name as its key. */
  lemma {:induction false} SimpleNames(ts: seq<Token>)
    ensures Simple(ts).Some? ==> forall i :: 0 <= i < |Simple(ts).value.envs| ==> IsName(Simple(ts).value.envs[i].0)
  {
    if ts != [] && ts[0].Word? && IsAssignment(ts[0].chars) {
      SimpleNames(ts[1..]);
    }
  }

  lemma {:induction false} AndListNames(ts: seq<Token>, c: nat)
    requires AndList(ts).Some? && c < |AndList(ts).value|
    ensures var envs := AndList(ts).value[c].envs;
            forall i :: 0 <= i < |envs| ==> IsName(envs[i].0)
    decreases |ts|
  {
    var k := FindAnd(ts);
    if c == 0 {
      SimpleNames(ts[..k]);
    } else {
      AndListNames(ts[k + 1..], c - 1);
    }
  }
}
