/**
 The Prometheus text files each command writes, and the strict reading of the
 exposition format they are held to.
 */
module Metrics {
  import opened Basics
  import opened Text

  // ---------------------------------------------------------------------------
  // Rendering

  datatype Labels = Labels(fraise: string, environment: string)

  /** A gauge with its value already printed; printing a float is not part of this model. */
  datatype Gauge = Gauge(name: string, help: string, value: string)

  /** `escape`: three replacements in a row. */
  function Escape(value: string): string {
    Replace(Replace(Replace(value, '\\', "\\\\"), '"', "\\\""), '\n', "\\n")
  }

  function LabelText(labels: Labels): string {
    "{fraise=\"" + Escape(labels.fraise) + "\",environment=\"" + Escape(labels.environment) + "\"}"
  }

  /** The lines of one gauge. */
  function GaugeLines(g: Gauge, labels: string): seq<string> {
    ["# HELP " + g.name + " " + g.help, "# TYPE " + g.name + " gauge", g.name + labels + " " + g.value]
  }

  function FileLines(gauges: seq<Gauge>, labels: string): seq<string> {
    if gauges == [] then [] else GaugeLines(gauges[0], labels) + FileLines(gauges[1..], labels)
  }

  /** What one turn of the loop in `render` writes. */
  function Block(g: Gauge, l: string): string {
    "# HELP " + g.name + " " + g.help + "\n# TYPE " + g.name + " gauge\n" + g.name + l + " " + g.value + "\n"
  }

  /** `render`. */
  method Render(gauges: seq<Gauge>, labels: Labels) returns (text: string)
    ensures text == Unlines(FileLines(gauges, LabelText(labels)))
  {
    var l := LabelText(labels);
    text := RenderWith(gauges, l);
  }

  method RenderWith(gauges: seq<Gauge>, l: string) returns (text: string)
    ensures text == Unlines(FileLines(gauges, l))
  {
    text := "";
    for i := 0 to |gauges|
      invariant text + Unlines(FileLines(gauges[i..], l)) == Unlines(FileLines(gauges, l))
    {
      var before := text;
      text := before + Block(gauges[i], l);
      GaugeText(gauges[i..], l, Block(gauges[i], l));
      assert gauges[i..][1..] == gauges[i + 1..];
      assert before + (Block(gauges[i], l) + Unlines(FileLines(gauges[i + 1..], l))) == text + Unlines(FileLines(gauges[i + 1..], l));
    }
    assert gauges[|gauges|..] == [];
  }

  lemma GaugeText(gauges: seq<Gauge>, l: string, block: string)
    requires gauges != [] && block == Block(gauges[0], l)
    ensures Unlines(FileLines(gauges, l)) == block + Unlines(FileLines(gauges[1..], l))
  {
    var ls := GaugeLines(gauges[0], l);
    assert [ls[0], ls[1], ls[2]] == ls;
    ThreeLines(ls[0], ls[1], ls[2], FileLines(gauges[1..], l));
    BlockIsLines(gauges[0], l);
  }

  lemma BlockIsLines(g: Gauge, l: string)
    ensures var ls := GaugeLines(g, l); Block(g, l) == ls[0] + "\n" + ls[1] + "\n" + ls[2] + "\n"
  {
    assert "\n# TYPE " == "\n" + "# TYPE " && " gauge\n" == " gauge" + "\n";
    Regroup("# HELP " + g.name + " " + g.help, "\n", "# TYPE ", g.name, " gauge", g.name, l, " ", g.value);
  }

  lemma Regroup(head: string, nl: string, a: string, b: string, c: string, d: string, e: string, f: string, g: string)
    ensures head + (nl + a) + b + (c + nl) + d + e + f + g + nl == head + nl + (a + b + c) + nl + (d + e + f + g) + nl
  {
  }

  lemma ThreeLines(a: string, b: string, c: string, rest: seq<string>)
    ensures Unlines([a, b, c] + rest) == a + "\n" + b + "\n" + c + "\n" + Unlines(rest)
  {
    var all := [a, b, c] + rest;
    assert all[1..] == [b, c] + rest && ([b, c] + rest)[1..] == [c] + rest && ([c] + rest)[1..] == rest;
    assert Unlines(all) == a + "\n" + Unlines([b, c] + rest);
    assert Unlines([b, c] + rest) == b + "\n" + Unlines([c] + rest);
  }

  // ---------------------------------------------------------------------------
  // The strict parser

  datatype Sample = Sample(name: string, labels: seq<(string, string)>, value: string)

  predicate IsNameStart(c: char) {
    IsLower(c) || IsUpper(c) || c == '_' || c == ':'
  }

  predicate IsNameChar(c: char) {
    IsNameStart(c) || IsDigit(c)
  }

  predicate IsMetricName(s: string) {
    s != [] && IsNameStart(s[0]) && forall i | 0 <= i < |s| :: IsNameChar(s[i])
  }

  predicate IsLabelName(s: string) {
    IsMetricName(s) && ':' !in s
  }

  /** A label value up to its closing quote, unescaped, and what follows the quote. */
  function ScanValue(s: string, escaped: bool): (r: Option<(string, string)>)
    ensures r.Some? ==> |r.value.1| < |s|
  {
    if s == [] then None
    else if escaped then
      if s[0] == '\\' || s[0] == '"' then Cons(s[0], ScanValue(s[1..], false))
      else if s[0] == 'n' then Cons('\n', ScanValue(s[1..], false))
      else None
    else if s[0] == '\\' then ScanValue(s[1..], true)
    else if s[0] == '"' then Some(([], s[1..]))
    else if s[0] == '\n' then None
    else Cons(s[0], ScanValue(s[1..], false))
  }

  function Cons(c: char, r: Option<(string, string)>): Option<(string, string)> {
    match r
    case None => None
    case Some(parts) => Some(([c] + parts.0, parts.1))
  }

  function ParsePairs(rest: string): Option<seq<(string, string)>>
    decreases |rest|
  {
    if rest == [] then Some([])
    else
      match SplitOnce(rest, "=\"")
      case None => None
      case Some(named) =>
        if !IsLabelName(named.0) then None
        else
          match ScanValue(named.1, false)
          case None => None
          case Some(scanned) =>
            if scanned.1 != [] && scanned.1[0] != ',' then None
            else
              match ParsePairs(if scanned.1 == [] then [] else scanned.1[1..])
              case None => None
              case Some(pairs) => Some([(named.0, scanned.0)] + pairs)
  }

  /** `parse_labels`. */
  function ParseLabels(text: string): Option<seq<(string, string)>> {
    if |text| >= 2 && text[0] == '{' && text[|text| - 1] == '}' then ParsePairs(text[1..|text| - 1]) else None
  }

  datatype Reading = Reading(helped: set<string>, typed: set<string>, series: set<string>, samples: seq<Sample>)

  predicate IsOpenBrace(c: char) {
    c == '{'
  }

  function Names(labels: seq<(string, string)>): (r: seq<string>)
    ensures |r| == |labels| && forall i :: 0 <= i < |r| ==> r[i] == labels[i].0
  {
    seq(|labels|, i requires 0 <= i < |labels| => labels[i].0)
  }

  function ReadHelp(rest: string, r: Reading): Option<Reading> {
    match SplitOnce(rest, " ")
    case None => None
    case Some(parts) =>
      if parts.1 == [] || !IsMetricName(parts.0) || parts.0 in r.helped then None
      else Some(r.(helped := r.helped + {parts.0}))
  }

  function ReadType(rest: string, r: Reading): Option<Reading> {
    match SplitOnce(rest, " ")
    case None => None
    case Some(parts) =>
      if parts.1 != "gauge" || parts.0 !in r.helped || parts.0 in r.typed then None
      else Some(r.(typed := r.typed + {parts.0}))
  }

  function ReadSample(line: string, finite: string -> bool, r: Reading): Option<Reading> {
    match RSplitOnce(line, ' ')
    case None => None
    case Some(parts) =>
      var at := Find(parts.0, IsOpenBrace);
      var name, labels := parts.0[..at], parts.0[at..];
      if name !in r.typed || parts.0 in r.series then None
      else
        var pairs := if labels == [] then Some([]) else ParseLabels(labels);
        if pairs.None? || (labels != [] && Names(pairs.value) != ["fraise", "environment"]) || !finite(parts.1) then None
        else Some(r.(series := r.series + {parts.0}, samples := r.samples + [Sample(name, pairs.value, parts.1)]))
  }

  function ReadLine(line: string, finite: string -> bool, r: Reading): Option<Reading> {
    if line == [] then None
    else if StartsWith(line, "# HELP ") then ReadHelp(line[7..], r)
    else if StartsWith(line, "# TYPE ") then ReadType(line[7..], r)
    else if line[0] == '#' then None
    else ReadSample(line, finite, r)
  }

  function ReadLines(lines: seq<string>, read: (string, Reading) -> Option<Reading>, r: Reading): Option<Reading> {
    if lines == [] then Some(r)
    else
      match read(lines[0], r)
      case None => None
      case Some(next) => ReadLines(lines[1..], read, next)
  }

  /**
   `parse_strictly`, over a reader of finite numbers. Besides what the source's
   parser returns, each sample keeps its labels with their values unescaped.
   */
  function ParseStrictly(text: string, finite: string -> bool): Option<seq<Sample>> {
    if text == [] || text[|text| - 1] != '\n' then None
    else
      match ReadLines(Lines(text), (line, r) => ReadLine(line, finite, r), Reading({}, {}, {}, []))
      case None => None
      case Some(r) => if r.samples == [] then None else Some(r.samples)
  }

  // ---------------------------------------------------------------------------
  // Escaping

  /** One character at a time. */
  function EscapeChar(c: char): string {
    if c == '\\' then "\\\\" else if c == '"' then "\\\"" else if c == '\n' then "\\n" else [c]
  }

  function EscapeAll(s: string): string {
    if s == [] then [] else EscapeChar(s[0]) + EscapeAll(s[1..])
  }

  lemma ReplaceOne(c: char, d: char, with: string)
    ensures Replace([c], d, with) == if c == d then with else [c]
  {
    assert [c][1..] == [];
  }

  /** The three replacements never touch each other's output. */
  lemma {:induction false} EscapeIsPerCharacter(s: string)
    ensures Escape(s) == EscapeAll(s)
  {
    if s != [] {
      EscapeIsPerCharacter(s[1..]);
      EscapeConcat([s[0]], s[1..]);
      assert [s[0]] + s[1..] == s;
      EscapeOne(s[0]);
    }
  }

  lemma EscapeConcat(a: string, b: string)
    ensures Escape(a + b) == Escape(a) + Escape(b)
  {
    ReplaceConcat(a, b, '\\', "\\\\");
    var a1, b1 := Replace(a, '\\', "\\\\"), Replace(b, '\\', "\\\\");
    ReplaceConcat(a1, b1, '"', "\\\"");
    ReplaceConcat(Replace(a1, '"', "\\\""), Replace(b1, '"', "\\\""), '\n', "\\n");
  }

  lemma ReplaceTwo(c: char, d: char, e: char, with: string)
    ensures Replace([c, d], e, with) == Replace([c], e, with) + Replace([d], e, with)
  {
    assert [c, d] == [c] + [d];
    ReplaceConcat([c], [d], e, with);
  }

  lemma EscapeOne(c: char)
    ensures Escape([c]) == EscapeChar(c)
  {
    ReplaceOne(c, '\\', "\\\\");
    ReplaceOne(c, '"', "\\\"");
    ReplaceOne(c, '\n', "\\n");
    ReplaceTwo('\\', '\\', '"', "\\\"");
    ReplaceTwo('\\', '\\', '\n', "\\n");
    ReplaceOne('\\', '"', "\\\"");
    ReplaceOne('\\', '\n', "\\n");
    ReplaceTwo('\\', '"', '\n', "\\n");
    ReplaceOne('"', '\n', "\\n");
  }

  /** Reading an escaped value up to its quote gives the value back, whatever follows. */
  lemma {:induction false} ScanEscaped(v: string, rest: string)
    ensures ScanValue(EscapeAll(v) + "\"" + rest, false) == Some((v, rest))
  {
    if v == [] {
      assert EscapeAll(v) + "\"" + rest == ['"'] + rest;
    } else {
      ScanEscaped(v[1..], rest);
      var tail := EscapeAll(v[1..]) + "\"" + rest;
      assert EscapeAll(v) + "\"" + rest == EscapeChar(v[0]) + tail;
      ScanOne(v[0], tail);
      assert [v[0]] + v[1..] == v;
    }
  }

  lemma ScanOne(c: char, tail: string)
    ensures ScanValue(EscapeChar(c) + tail, false) == Cons(c, ScanValue(tail, false))
  {
    var s := EscapeChar(c) + tail;
    if |EscapeChar(c)| == 2 {
      assert s[0] == '\\' && s[1..][0] == EscapeChar(c)[1] && s[1..][1..] == tail;
      assert ScanValue(s, false) == ScanValue(s[1..], true);
    } else {
      assert s[0] == c && s[1..] == tail;
    }
  }

  lemma {:induction false} EscapedIsOneLine(v: string)
    ensures '\n' !in EscapeAll(v)
  {
    if v != [] {
      EscapedIsOneLine(v[1..]);
    }
  }

  // ---------------------------------------------------------------------------
  // Labels read back

  /** One `name="value"`, then the rest. */
  lemma PairReads(name: string, value: string, rest: string, text: string)
    requires IsLabelName(name) && (rest == [] || rest[0] == ',')
    requires text == name + "=\"" + (EscapeAll(value) + "\"" + rest)
    ensures var tail := ParsePairs(if rest == [] then [] else rest[1..]);
            ParsePairs(text) == if tail.None? then None else Some([(name, value)] + tail.value)
  {
    assert '=' !in name;
    SplitOnceAt(name, "=\"", EscapeAll(value) + "\"" + rest);
    ScanEscaped(value, rest);
  }

  lemma TwoPairsRead(n1: string, v1: string, n2: string, v2: string, first: string, second: string)
    requires IsLabelName(n1) && IsLabelName(n2)
    requires second == n2 + "=\"" + (EscapeAll(v2) + "\"" + []) && first == n1 + "=\"" + (EscapeAll(v1) + "\"" + ([','] + second))
    ensures ParsePairs(first) == Some([(n1, v1), (n2, v2)])
  {
    PairReads(n2, v2, [], second);
    assert [(n2, v2)] + [] == [(n2, v2)];
    assert ([','] + second)[1..] == second;
    PairReads(n1, v1, [','] + second, first);
    assert [(n1, v1)] + [(n2, v2)] == [(n1, v1), (n2, v2)];
  }

  lemma LabelNames()
    ensures IsLabelName("fraise") && IsLabelName("environment")
  {
  }

  /** The rendered labels are exactly the two names with exactly the values given. */
  lemma LabelsReadBack(labels: Labels)
    ensures ParseLabels(LabelText(labels)) == Some([("fraise", labels.fraise), ("environment", labels.environment)])
    ensures '\n' !in LabelText(labels) && LabelText(labels)[0] == '{'
  {
    EscapeIsPerCharacter(labels.fraise);
    EscapeIsPerCharacter(labels.environment);
    LabelNames();
    LabelTextIs(labels, "fraise", "environment");
    BracedPairsRead("fraise", labels.fraise, "environment", labels.environment, LabelText(labels));
  }

  lemma BracedPairsRead(n1: string, v1: string, n2: string, v2: string, text: string)
    requires IsLabelName(n1) && IsLabelName(n2)
    requires text == ("{" + n1 + "=\"") + EscapeAll(v1) + ("\"" + "," + n2 + "=\"") + EscapeAll(v2) + ("\"" + "}")
    ensures ParseLabels(text) == Some([(n1, v1), (n2, v2)])
    ensures '\n' !in text && text[0] == '{'
  {
    var second := n2 + "=\"" + (EscapeAll(v2) + "\"" + []);
    var first := n1 + "=\"" + (EscapeAll(v1) + "\"" + ([','] + second));
    TwoPairsRead(n1, v1, n2, v2, first, second);
    Regroup2("{", n1, "=\"", EscapeAll(v1), "\"", ",", n2, EscapeAll(v2), "}");
    Braced(first, text);
    EscapedIsOneLine(v1);
    EscapedIsOneLine(v2);
    NameIsPlain(n1);
    NameIsPlain(n2);
  }

  lemma Regroup2(o: string, n1: string, eq: string, v1: string, q: string, comma: string, n2: string, v2: string, c: string)
    ensures (o + n1 + eq) + v1 + (q + comma + n2 + eq) + v2 + (q + c)
         == o + (n1 + eq + (v1 + q + (comma + (n2 + eq + (v2 + q + []))))) + c
  {
  }

  lemma Braced(inner: string, text: string)
    requires text == "{" + inner + "}"
    ensures ParseLabels(text) == ParsePairs(inner) && text[0] == '{'
  {
    assert text[1..|text| - 1] == inner;
  }

  lemma LabelTextIs(labels: Labels, n1: string, n2: string)
    requires n1 == "fraise" && n2 == "environment"
    ensures LabelText(labels)
         == ("{" + n1 + "=\"") + Escape(labels.fraise) + ("\"" + "," + n2 + "=\"") + Escape(labels.environment) + ("\"" + "}")
  {
    assert "{fraise=\"" == "{" + n1 + "=\"";
    assert "\",environment=\"" == "\"" + "," + n2 + "=\"";
    assert "\"}" == "\"" + "}";
  }

  // ---------------------------------------------------------------------------
  // Files read back

  predicate EndsPlain(s: string) {
    s != [] && '\n' !in s && s[|s| - 1] != '\r'
  }

  predicate IsGauge(g: Gauge, finite: string -> bool) {
    IsMetricName(g.name) && EndsPlain(g.help) && EndsPlain(g.value) && ' ' !in g.value && finite(g.value)
  }

  /** Label text that reads as the two labels. */
  ghost predicate IsLabelText(l: string, pairs: seq<(string, string)>) {
    && l != [] && l[0] == '{' && '\n' !in l
    && ParseLabels(l) == Some(pairs) && Names(pairs) == ["fraise", "environment"]
  }

  lemma NameIsPlain(name: string)
    requires IsMetricName(name)
    ensures ' ' !in name && '{' !in name && '\n' !in name && '#' !in name
  {
    forall c | c in name ensures IsNameChar(c) {
      var i :| 0 <= i < |name| && name[i] == c;
    }
  }

  lemma HelpLineReads(g: Gauge, finite: string -> bool, r: Reading)
    requires IsGauge(g, finite) && g.name !in r.helped
    ensures ReadLine("# HELP " + g.name + " " + g.help, finite, r) == Some(r.(helped := r.helped + {g.name}))
  {
    NameIsPlain(g.name);
    var line := "# HELP " + (g.name + " " + g.help);
    assert "# HELP " + g.name + " " + g.help == line;
    assert line[..7] == "# HELP " && line[7..] == g.name + " " + g.help;
    SplitOnceAt(g.name, " ", g.help);
  }

  lemma TypeLineReads(name: string, finite: string -> bool, r: Reading)
    requires IsMetricName(name) && name in r.helped && name !in r.typed
    ensures ReadLine("# TYPE " + name + " gauge", finite, r) == Some(r.(typed := r.typed + {name}))
  {
    NameIsPlain(name);
    var line := "# TYPE " + (name + " " + "gauge");
    assert "# TYPE " + name + " gauge" == line by { assert " gauge" == " " + "gauge"; }
    assert line[..7] == "# TYPE " && line[7..] == name + " " + "gauge";
    assert line[2] == 'T' && "# HELP "[2] == 'H';
    SplitOnceAt(name, " ", "gauge");
  }

  lemma SampleLineReads(g: Gauge, l: string, pairs: seq<(string, string)>, finite: string -> bool, r: Reading)
    requires IsGauge(g, finite) && IsLabelText(l, pairs) && g.name in r.typed && g.name + l !in r.series
    ensures ReadLine(g.name + l + " " + g.value, finite, r)
         == Some(r.(series := r.series + {g.name + l}, samples := r.samples + [Sample(g.name, pairs, g.value)]))
  {
    NameIsPlain(g.name);
    var series := g.name + l;
    var line := series + " " + g.value;
    assert line[0] == g.name[0] && g.name[0] in g.name;
    assert ReadLine(line, finite, r) == ReadSample(line, finite, r);
    SampleReads(g.name, l, pairs, g.value, finite, r);
  }

  lemma SampleReads(name: string, l: string, pairs: seq<(string, string)>, value: string, finite: string -> bool, r: Reading)
    requires IsLabelText(l, pairs) && '{' !in name && ' ' !in value && finite(value)
    requires name in r.typed && name + l !in r.series
    ensures ReadSample(name + l + " " + value, finite, r)
         == Some(r.(series := r.series + {name + l}, samples := r.samples + [Sample(name, pairs, value)]))
  {
    var series := name + l;
    RSplitOnceAt(series, ' ', value);
    FindAt(series, IsOpenBrace, |name|);
    assert series[..|name|] == name && series[|name|..] == l;
  }

  /** The series read so far are those of the names typed so far. */
  ghost predicate InStep(r: Reading, l: string) {
    r.helped == r.typed && forall s :: s in r.series ==> exists n :: n in r.typed && s == n + l
  }

  /** The reading after the three lines of a gauge. */
  function After(r: Reading, g: Gauge, l: string, pairs: seq<(string, string)>): Reading {
    Reading(r.helped + {g.name}, r.typed + {g.name}, r.series + {g.name + l}, r.samples + [Sample(g.name, pairs, g.value)])
  }

  lemma NewSeries(r: Reading, name: string, l: string)
    requires InStep(r, l) && name !in r.typed
    ensures name + l !in r.series
  {
    forall n | n in r.typed ensures name + l != n + l {
      assert (n + l)[..|n|] == n && (name + l)[..|name|] == name;
    }
  }

  lemma GaugeReads(g: Gauge, l: string, pairs: seq<(string, string)>, finite: string -> bool, r: Reading)
    requires IsGauge(g, finite) && IsLabelText(l, pairs) && InStep(r, l) && g.name !in r.typed
    ensures ThreeRead((line, r) => ReadLine(line, finite, r), GaugeLines(g, l), r, After(r, g, l, pairs))
  {
    var r1 := r.(helped := r.helped + {g.name});
    var r2 := r1.(typed := r1.typed + {g.name});
    NewSeries(r, g.name, l);
    HelpLineReads(g, finite, r);
    TypeLineReads(g.name, finite, r1);
    SampleLineReads(g, l, pairs, finite, r2);
  }

  /** Three lines take one reading to another. */
  ghost predicate ThreeRead(read: (string, Reading) -> Option<Reading>, lines: seq<string>, r: Reading, end: Reading) {
    |lines| == 3 && exists r1, r2 :: read(lines[0], r) == Some(r1) && read(lines[1], r1) == Some(r2) && read(lines[2], r2) == Some(end)
  }

  lemma ReadThree(read: (string, Reading) -> Option<Reading>, lines: seq<string>, rest: seq<string>, r: Reading, end: Reading)
    requires ThreeRead(read, lines, r, end)
    ensures ReadLines(lines + rest, read, r) == ReadLines(rest, read, end)
  {
    var r1, r2 :| read(lines[0], r) == Some(r1) && read(lines[1], r1) == Some(r2) && read(lines[2], r2) == Some(end);
    var all := lines + rest;
    assert all[1..] == lines[1..] + rest && all[1..][1..] == lines[2..] + rest && all[1..][1..][1..] == rest;
    assert ReadLines(all, read, r) == ReadLines(all[1..], read, r1);
    assert ReadLines(all[1..], read, r1) == ReadLines(all[1..][1..], read, r2);
  }

  lemma StepInStep(r: Reading, g: Gauge, l: string, pairs: seq<(string, string)>)
    requires InStep(r, l)
    ensures InStep(After(r, g, l, pairs), l)
  {
    var next := After(r, g, l, pairs);
    forall s | s in next.series ensures exists n :: n in next.typed && s == n + l {
      if s in r.series {
        var n :| n in r.typed && s == n + l;
        assert n in next.typed;
      } else {
        assert g.name in next.typed;
      }
    }
  }

  function Samples(gauges: seq<Gauge>, pairs: seq<(string, string)>): (r: seq<Sample>)
    ensures |r| == |gauges| && forall i :: 0 <= i < |r| ==> r[i] == Sample(gauges[i].name, pairs, gauges[i].value)
  {
    seq(|gauges|, i requires 0 <= i < |gauges| => Sample(gauges[i].name, pairs, gauges[i].value))
  }

  ghost predicate AreGauges(gauges: seq<Gauge>, finite: string -> bool) {
    && (forall i :: 0 <= i < |gauges| ==> IsGauge(gauges[i], finite))
    && (forall i, j :: 0 <= i < j < |gauges| ==> gauges[i].name != gauges[j].name)
  }

  lemma SamplesCons(before: seq<Sample>, gauges: seq<Gauge>, pairs: seq<(string, string)>)
    requires gauges != []
    ensures before + Samples(gauges, pairs) == before + [Sample(gauges[0].name, pairs, gauges[0].value)] + Samples(gauges[1..], pairs)
  {
  }

  /** A reader that takes every gauge in its stride. */
  ghost predicate Takes(read: (string, Reading) -> Option<Reading>, gauges: seq<Gauge>, l: string, pairs: seq<(string, string)>) {
    forall i, r :: 0 <= i < |gauges| && InStep(r, l) && gauges[i].name !in r.typed ==>
      ThreeRead(read, GaugeLines(gauges[i], l), r, After(r, gauges[i], l, pairs))
  }

  lemma {:induction false} GaugesRead(read: (string, Reading) -> Option<Reading>, gauges: seq<Gauge>, l: string, pairs: seq<(string, string)>, r: Reading)
    requires Takes(read, gauges, l, pairs) && InStep(r, l)
    requires forall i, j :: 0 <= i < j < |gauges| ==> gauges[i].name != gauges[j].name
    requires forall i :: 0 <= i < |gauges| ==> gauges[i].name !in r.typed
    ensures var end := ReadLines(FileLines(gauges, l), read, r);
            end.Some? && end.value.samples == r.samples + Samples(gauges, pairs)
  {
    if gauges == [] {
      assert r.samples + Samples(gauges, pairs) == r.samples;
    } else {
      var next := After(r, gauges[0], l, pairs);
      ReadThree(read, GaugeLines(gauges[0], l), FileLines(gauges[1..], l), r, next);
      StepInStep(r, gauges[0], l, pairs);
      TakesRest(read, gauges, l, pairs);
      GaugesRead(read, gauges[1..], l, pairs, next);
      SamplesCons(r.samples, gauges, pairs);
    }
  }

  lemma TakesRest(read: (string, Reading) -> Option<Reading>, gauges: seq<Gauge>, l: string, pairs: seq<(string, string)>)
    requires Takes(read, gauges, l, pairs) && gauges != []
    ensures Takes(read, gauges[1..], l, pairs)
  {
    forall i, r | 0 <= i < |gauges[1..]| && InStep(r, l) && gauges[1..][i].name !in r.typed
      ensures ThreeRead(read, GaugeLines(gauges[1..][i], l), r, After(r, gauges[1..][i], l, pairs))
    {
      assert gauges[1..][i] == gauges[i + 1];
    }
  }

  /** No rendered line holds a newline or ends in a carriage return. */
  lemma {:induction false} LinesArePlain(gauges: seq<Gauge>, l: string, finite: string -> bool)
    requires AreGauges(gauges, finite) && '\n' !in l
    ensures forall i :: 0 <= i < |FileLines(gauges, l)| ==> EndsPlain(FileLines(gauges, l)[i])
  {
    if gauges != [] {
      LinesArePlain(gauges[1..], l, finite);
      GaugeLinesArePlain(gauges[0], l, finite);
    }
  }

  lemma GaugeLinesArePlain(g: Gauge, l: string, finite: string -> bool)
    requires IsGauge(g, finite) && '\n' !in l
    ensures forall i :: 0 <= i < 3 ==> EndsPlain(GaugeLines(g, l)[i])
  {
    NameIsPlain(g.name);
    PlainConcat("# HELP " + g.name + " ", g.help);
    PlainConcat("# TYPE " + g.name, " gauge");
    PlainConcat(g.name + l + " ", g.value);
  }

  lemma PlainConcat(a: string, b: string)
    requires '\n' !in a && EndsPlain(b)
    ensures EndsPlain(a + b)
  {
  }

  lemma PlainLinesReadBack(ls: seq<string>)
    requires forall i :: 0 <= i < |ls| ==> EndsPlain(ls[i])
    ensures Lines(Unlines(ls)) == ls
  {
    LinesOfUnlines(ls);
    assert StripCrs(ls) == ls;
  }

  lemma {:induction false} UnlinesEnds(ls: seq<string>)
    requires ls != []
    ensures Unlines(ls) != [] && Unlines(ls)[|Unlines(ls)| - 1] == '\n'
  {
    if |ls| > 1 {
      UnlinesEnds(ls[1..]);
    }
  }

  /**
   Whatever the label values are, the rendered file is accepted by the strict
   parser, and it reads as one sample per gauge in order, each with exactly the
   labels `fraise` and `environment`, their original values and its own value.
   */
  lemma RenderedFilesParse(gauges: seq<Gauge>, labels: Labels, finite: string -> bool)
    requires AreGauges(gauges, finite) && gauges != []
    ensures ParseStrictly(Unlines(FileLines(gauges, LabelText(labels))), finite)
         == Some(Samples(gauges, [("fraise", labels.fraise), ("environment", labels.environment)]))
  {
    LabelsReadBack(labels);
    var pairs := [("fraise", labels.fraise), ("environment", labels.environment)];
    assert Names(pairs) == ["fraise", "environment"];
    FileParses(gauges, LabelText(labels), pairs, finite);
  }

  lemma FileParses(gauges: seq<Gauge>, l: string, pairs: seq<(string, string)>, finite: string -> bool)
    requires AreGauges(gauges, finite) && gauges != [] && IsLabelText(l, pairs)
    ensures ParseStrictly(Unlines(FileLines(gauges, l)), finite) == Some(Samples(gauges, pairs))
  {
    var lines := FileLines(gauges, l);
    LinesArePlain(gauges, l, finite);
    PlainLinesReadBack(lines);
    UnlinesEnds(lines);
    var none := Reading({}, {}, {}, []);
    var read := (line, r) => ReadLine(line, finite, r);
    forall i, r | 0 <= i < |gauges| && InStep(r, l) && gauges[i].name !in r.typed
      ensures ThreeRead(read, GaugeLines(gauges[i], l), r, After(r, gauges[i], l, pairs))
    {
      GaugeReads(gauges[i], l, pairs, finite, r);
    }
    GaugesRead(read, gauges, l, pairs, none);
    assert none.samples + Samples(gauges, pairs) == Samples(gauges, pairs);
  }
}
