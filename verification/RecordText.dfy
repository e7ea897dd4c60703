/**
 Reading a published failure record back: a reader of JSON objects whose values are
 strings, numbers or null (RFC 8259), and the record it yields for what was written.
 */
module RecordText {
  import opened Basics
  import opened Text
  import F = FailureRecord

  type Scalar = F.Scalar

  // ---------------------------------------------------------------------------
  // The reader

  function HexValue(c: char): Option<nat> {
    if IsDigit(c) then Some(c as int - '0' as int)
    else if 'a' <= c <= 'f' then Some(c as int - 'a' as int + 10)
    else if 'A' <= c <= 'F' then Some(c as int - 'A' as int + 10)
    else None
  }

  /** Four hexadecimal digits that name a character by themselves. */
  function ReadHex(s: string): Option<char>
    requires |s| == 4
  {
    var a, b, c, d := HexValue(s[0]), HexValue(s[1]), HexValue(s[2]), HexValue(s[3]);
    if a.None? || b.None? || c.None? || d.None? then None
    else
      var n := ((a.value * 16 + b.value) * 16 + c.value) * 16 + d.value;
      if 0 <= n < 0xD800 || 0xE000 <= n < 0x10000 then Some(n as char) else None
  }

  /** One character of a string, escaped or not (section 7 of RFC 8259). */
  function ReadChar(s: string): (r: Option<(char, string)>)
    ensures r.Some? ==> |r.value.1| < |s|
  {
    if s == [] || s[0] == '"' || s[0] as int < 0x20 then None
    else if s[0] != '\\' then Some((s[0], s[1..]))
    else if |s| < 2 then None
    else
      match s[1]
      case '"' => Some(('"', s[2..]))
      case '\\' => Some(('\\', s[2..]))
      case '/' => Some(('/', s[2..]))
      case 'b' => Some(('\U{0008}', s[2..]))
      case 'f' => Some(('\U{000C}', s[2..]))
      case 'n' => Some(('\n', s[2..]))
      case 'r' => Some(('\r', s[2..]))
      case 't' => Some(('\t', s[2..]))
      case 'u' =>
        if |s| < 6 || ReadHex(s[2..6]).None? then None else Some((ReadHex(s[2..6]).value, s[6..]))
      case _ => None
  }

  /** The rest of a string, up to its closing quote. */
  function ReadText(s: string): (r: Option<(string, string)>)
    ensures r.Some? ==> |r.value.1| < |s|
    decreases |s|
  {
    if s != [] && s[0] == '"' then Some(([], s[1..]))
    else
      match ReadChar(s)
      case None => None
      case Some((c, rest)) =>
        match ReadText(rest)
        case None => None
        case Some((text, after)) => Some(([c] + text, after))
  }

  predicate IsNoDigit(c: char) {
    !IsDigit(c)
  }

  /** A whole number: digits without a leading zero. */
  function ReadCount(s: string): (r: Option<(nat, string)>)
    ensures r.Some? ==> |r.value.1| < |s|
  {
    var k := Find(s, IsNoDigit);
    if k == 0 || (k > 1 && s[0] == '0') then None
    else
      assert forall c :: c in s[..k] ==> IsDigit(c);
      Some((Value(s[..k]), s[k..]))
  }

  const NULL: string := "null"

  function ReadValue(s: string): (r: Option<(Scalar, string)>)
    ensures r.Some? ==> |r.value.1| < |s|
  {
    if StartsWith(s, NULL) then Some((F.Missing, s[|NULL|..]))
    else if s != [] && s[0] == '"' then
      match ReadText(s[1..])
      case None => None
      case Some((text, rest)) => Some((F.Str(text), rest))
    else
      match ReadCount(s)
      case None => None
      case Some((n, rest)) => Some((F.Count(n), rest))
  }

  /** The pairs of an object, up to its closing brace and nothing after it. */
  function ReadPairs(s: string): Option<seq<(string, Scalar)>>
    decreases |s|
  {
    if s == [] || s[0] != '"' then None
    else
      match ReadText(s[1..])
      case None => None
      case Some((key, after)) =>
        if after == [] || after[0] != ':' then None
        else
          match ReadValue(after[1..])
          case None => None
          case Some((value, rest)) =>
            if rest == "}" then Some([(key, value)])
            else if rest == [] || rest[0] != ',' then None
            else
              match ReadPairs(rest[1..])
              case None => None
              case Some(pairs) => Some([(key, value)] + pairs)
  }

  function Field(pairs: seq<(string, Scalar)>, key: string): Option<Scalar> {
    if pairs == [] then None else if pairs[0].0 == key then Some(pairs[0].1) else Field(pairs[1..], key)
  }

  /** A string, or nothing when the field is null or absent. */
  function TextOrNone(v: Option<Scalar>): Option<Option<string>> {
    if v.None? || v.value.Missing? then Some(None) else if v.value.Str? then Some(Some(v.value.text)) else None
  }

  /** `serde_json::from_slice` of a record. */
  function ReadRecord(s: string): Option<F.Record> {
    if s == [] || s[0] != '{' then None
    else
      match ReadPairs(s[1..])
      case None => None
      case Some(pairs) => FromPairs(pairs)
  }

  function FromPairs(pairs: seq<(string, Scalar)>): Option<F.Record> {
    var event, unit_, id := Field(pairs, "event"), Field(pairs, "unit"), Field(pairs, "invocation_id");
    var fraise, environment := TextOrNone(Field(pairs, "fraise")), TextOrNone(Field(pairs, "environment"));
    var at, reason := Field(pairs, "at_unix"), Field(pairs, "reason");
    if event.None? || !event.value.Str? || unit_.None? || !unit_.value.Str? || id.None? || !id.value.Str?
       || fraise.None? || environment.None? || at.None? || !at.value.Count? || reason.None? || !reason.value.Str?
    then None
    else Some(F.Record(event.value.text, fraise.value, environment.value, unit_.value.text, id.value.text, at.value.count, reason.value.text))
  }

  // ---------------------------------------------------------------------------
  // Strings and numbers read back

  lemma HexReads(d: nat)
    requires d < 16
    ensures HexValue(F.Hex(d)) == Some(d)
  {
  }

  lemma ControlReads(c: char, rest: string)
    requires c as int < 0x20
    ensures ReadChar("\\u00" + [F.Hex(c as int / 16), F.Hex(c as int % 16)] + rest) == Some((c, rest))
  {
    var n := c as int;
    var x := "\\u00" + [F.Hex(n / 16), F.Hex(n % 16)];
    var s := x + rest;
    HexReads(n / 16);
    HexReads(n % 16);
    assert s[0] == '\\' && s[1] == 'u' && s[2] == '0' && s[3] == '0' && s[4] == F.Hex(n / 16) && s[5] == F.Hex(n % 16);
    assert s[6..] == rest;
    assert n == n / 16 * 16 + n % 16;
  }

  lemma EscapeReads(c: char, rest: string)
    ensures ReadChar(F.Escape(c) + rest) == Some((c, rest))
    ensures (F.Escape(c) + rest)[0] != '"'
  {
    var e := F.Escape(c);
    var s := e + rest;
    assert s[0] == e[0];
    if |e| == 6 {
      ControlReads(c, rest);
    } else if |e| == 2 {
      assert s[1] == e[1] && s[2..] == rest;
    } else {
      assert s[1..] == rest;
    }
  }

  lemma {:induction false} TextReads(text: string, rest: string)
    ensures ReadText(F.Escaped(text) + "\"" + rest) == Some((text, rest))
    decreases |text|
  {
    var s := F.Escaped(text) + "\"" + rest;
    if text == [] {
      assert s == "\"" + rest;
      assert s[1..] == rest;
    } else {
      var more := F.Escaped(text[1..]) + "\"" + rest;
      assert s == F.Escape(text[0]) + more;
      EscapeReads(text[0], more);
      TextReads(text[1..], rest);
      assert [text[0]] + text[1..] == text;
    }
  }

  lemma {:induction false} NoLeadingZero(n: nat)
    requires n > 0
    ensures Decimal(n)[0] != '0'
  {
    if n >= 10 {
      NoLeadingZero(n / 10);
      assert Decimal(n)[0] == Decimal(n / 10)[0];
    }
  }

  lemma CountReads(n: nat, rest: string)
    requires rest == [] || !IsDigit(rest[0])
    ensures ReadCount(Decimal(n) + rest) == Some((n, rest))
  {
    var d := Decimal(n);
    var s := d + rest;
    assert forall i :: 0 <= i < |d| ==> s[i] == d[i] && d[i] in d;
    FindAt(s, IsNoDigit, |d|);
    assert s[..|d|] == d && s[|d|..] == rest;
    ValueOfDecimal(n);
    if n > 0 {
      NoLeadingZero(n);
    }
  }

  // ---------------------------------------------------------------------------
  // Objects read back

  function ShowPairs(pairs: seq<(string, Scalar)>): string
    requires pairs != []
  {
    F.Quote(pairs[0].0) + ":" + F.Show(pairs[0].1) + (if |pairs| == 1 then "}" else "," + ShowPairs(pairs[1..]))
  }

  lemma QuoteReads(text: string, rest: string)
    ensures var s := F.Quote(text) + rest; s[0] == '"' && ReadText(s[1..]) == Some((text, rest))
  {
    var s := F.Quote(text) + rest;
    assert s[1..] == F.Escaped(text) + "\"" + rest;
    TextReads(text, rest);
  }

  lemma NotNull(s: string)
    requires s != [] && s[0] != 'n'
    ensures !StartsWith(s, NULL)
  {
    assert |s| >= |NULL| ==> s[..|NULL|][0] == s[0];
  }

  lemma ValueReads(v: Scalar, rest: string)
    requires rest == [] || !IsDigit(rest[0])
    ensures ReadValue(F.Show(v) + rest) == Some((v, rest))
  {
    var s := F.Show(v) + rest;
    match v
    case Str(text) =>
      QuoteReads(text, rest);
      NotNull(s);
    case Missing =>
      assert s[..|NULL|] == NULL && s[|NULL|..] == rest;
    case Count(n) =>
      CountReads(n, rest);
      assert s[0] == Decimal(n)[0] && Decimal(n)[0] in Decimal(n);
      NotNull(s);
  }

  /** What follows the first pair. */
  function ReadRest(key: string, value: Scalar, rest: string): Option<seq<(string, Scalar)>> {
    if rest == "}" then Some([(key, value)])
    else if rest == [] || rest[0] != ',' then None
    else
      match ReadPairs(rest[1..])
      case None => None
      case Some(pairs) => Some([(key, value)] + pairs)
  }

  lemma PairReads(s: string, key: string, after: string, value: Scalar, rest: string)
    requires s != [] && s[0] == '"' && ReadText(s[1..]) == Some((key, after))
    requires after != [] && after[0] == ':' && ReadValue(after[1..]) == Some((value, rest))
    ensures ReadPairs(s) == ReadRest(key, value, rest)
  {
  }

  lemma FirstPairReads(key: string, value: Scalar, rest: string)
    requires rest == [] || !IsDigit(rest[0])
    ensures ReadPairs(F.Quote(key) + ":" + F.Show(value) + rest) == ReadRest(key, value, rest)
  {
    var after := ":" + (F.Show(value) + rest);
    var s := F.Quote(key) + after;
    Assoc(F.Quote(key) + ":", F.Show(value), rest);
    Assoc(F.Quote(key), ":", F.Show(value) + rest);
    QuoteReads(key, after);
    assert after[1..] == F.Show(value) + rest;
    ValueReads(value, rest);
    PairReads(s, key, after, value, rest);
  }

  lemma RestReads(key: string, value: Scalar, shown: string, pairs: seq<(string, Scalar)>)
    requires ReadPairs(shown) == Some(pairs)
    ensures ReadRest(key, value, "," + shown) == Some([(key, value)] + pairs)
  {
    var rest := "," + shown;
    assert rest[0] == ',' && rest[1..] == shown;
  }

  lemma {:induction false} PairsRead(pairs: seq<(string, Scalar)>)
    requires pairs != []
    ensures ReadPairs(ShowPairs(pairs)) == Some(pairs)
    decreases |pairs|
  {
    var (key, value) := pairs[0];
    if |pairs| == 1 {
      FirstPairReads(key, value, "}");
      assert pairs == [(key, value)];
    } else {
      var more := ShowPairs(pairs[1..]);
      PairsRead(pairs[1..]);
      FirstPairReads(key, value, "," + more);
      RestReads(key, value, more, pairs[1..]);
      assert pairs == [(key, value)] + pairs[1..];
    }
  }

  // ---------------------------------------------------------------------------
  // Records read back

  lemma {:induction false} LeadShows(pairs: seq<(string, Scalar)>, last: (string, Scalar))
    ensures ShowPairs(pairs + [last]) == F.Lead(pairs) + (F.Quote(last.0) + ":" + F.Show(last.1) + "}")
  {
    if pairs == [] {
      assert pairs + [last] == [last];
    } else {
      LeadShows(pairs[1..], last);
      assert (pairs + [last])[1..] == pairs[1..] + [last];
      Commas(F.Quote(pairs[0].0) + ":" + F.Show(pairs[0].1), F.Lead(pairs[1..]), F.Quote(last.0) + ":" + F.Show(last.1) + "}");
    }
  }

  lemma Commas(a: string, b: string, c: string)
    ensures a + ("," + (b + c)) == a + "," + b + c
  {
  }

  /** The fields of a record, by their names in the file. */
  function Fields(r: F.Record): seq<(string, Scalar)> {
    F.Leading(r) + [("reason", F.Str(r.reason))]
  }

  lemma JsonIsPairs(r: F.Record)
    ensures F.Json(r) == "{" + ShowPairs(Fields(r))
  {
    LeadShows(F.Leading(r), ("reason", F.Str(r.reason)));
    Closing(F.Lead(F.Leading(r)), F.Quote("reason"), F.Escaped(r.reason));
  }

  lemma Closing(lead: string, name: string, text: string)
    ensures "{" + lead + name + ":\"" + text + "\"}" == "{" + (lead + (name + ":" + ("\"" + text + "\"") + "}"))
  {
    assert ":\"" == ":" + "\"" && "\"}" == "\"" + "}";
  }

  lemma FieldsRead(r: F.Record)
    ensures var fs := Fields(r);
            && Field(fs, "event") == Some(F.Str(r.event)) && Field(fs, "fraise") == Some(F.OrMissing(r.fraise))
            && Field(fs, "environment") == Some(F.OrMissing(r.environment)) && Field(fs, "unit") == Some(F.Str(r.unit_))
            && Field(fs, "invocation_id") == Some(F.Str(r.invocationId)) && Field(fs, "at_unix") == Some(F.Count(r.atUnix))
            && Field(fs, "reason") == Some(F.Str(r.reason))
  {
    FieldAt(Fields(r), 0);
    FieldAt(Fields(r), 1);
    FieldAt(Fields(r), 2);
    FieldAt(Fields(r), 3);
    FieldAt(Fields(r), 4);
    FieldAt(Fields(r), 5);
    FieldAt(Fields(r), 6);
  }

  lemma {:induction false} FieldAt(pairs: seq<(string, Scalar)>, i: nat)
    requires i < |pairs| && forall j :: 0 <= j < i ==> pairs[j].0 != pairs[i].0
    ensures Field(pairs, pairs[i].0) == Some(pairs[i].1)
  {
    if i > 0 {
      assert pairs[1..][i - 1] == pairs[i];
      FieldAt(pairs[1..], i - 1);
    }
  }

  lemma FromFields(r: F.Record)
    ensures FromPairs(Fields(r)) == Some(r)
  {
    FieldsRead(r);
  }

  lemma ObjectReads(s: string, pairs: seq<(string, Scalar)>, shown: string)
    requires s == "{" + shown && ReadPairs(shown) == Some(pairs)
    ensures ReadRecord(s) == FromPairs(pairs)
  {
    assert s[0] == '{' && s[1..] == shown;
  }

  /** What is published reads back as the record, field by field. */
  lemma RecordReadsBack(r: F.Record)
    ensures ReadRecord(F.Json(r)) == Some(r)
  {
    JsonIsPairs(r);
    PairsRead(Fields(r));
    FromFields(r);
    ObjectReads(F.Json(r), Fields(r), ShowPairs(Fields(r)));
  }
}
