/**
 Reading confiture's JSON reports: the verify verdict, which is green only when
 every signal agrees, and the change-set, which never loses an entry.
 */
module Reports {
  import opened Basics
  import opened Text

  const U64_MAX: nat := 0xFFFF_FFFF_FFFF_FFFF

  datatype Json = Null | Bool(flag: bool) | Number(number: int) | Fraction | Str(text: string) | Array(items: seq<Json>) | Object(fields: map<string, Json>)

  function Get(json: Json, key: string): Option<Json> {
    if json.Object? && key in json.fields then Some(json.fields[key]) else None
  }

  function Str0(json: Json, key: string): string {
    var v := Get(json, key);
    if v.Some? && v.value.Str? then v.value.text else ""
  }

  // ---------------------------------------------------------------------------
  // The verify report

  datatype NotAReport = IllTyped(key: string) | NoVerdict

  datatype Check = Check(name: string, ok: bool, detail: Option<string>)

  datatype Report = Report(ok: bool, checks: seq<Check>, skipped: bool)

  function OptionalBool(json: Json, key: string): Result<Option<bool>, NotAReport> {
    match Get(json, key)
    case None => Ok(None)
    case Some(v) => if v.Bool? then Ok(Some(v.flag)) else Err(IllTyped(key))
  }

  function OptionalCount(json: Json, key: string): Result<Option<nat>, NotAReport> {
    match Get(json, key)
    case None => Ok(None)
    case Some(v) => if v.Number? && 0 <= v.number <= U64_MAX then Ok(Some(v.number)) else Err(IllTyped(key))
  }

  /** `verify_check_from`. */
  function CheckFrom(result: Json): Check {
    var version, name, status := Str0(result, "version"), Str0(result, "name"), Str0(result, "status");
    var title := if name == "" || name == version then version else version + "_" + name;
    var error := Get(result, "error");
    var detail := if error.Some? && error.value.Str? then Some(error.value.text) else if status != "verified" then Some(status) else None;
    Check(title, status != "failed", detail)
  }

  function ChecksFrom(results: seq<Json>): (r: seq<Check>)
    ensures |r| == |results| && forall i :: 0 <= i < |r| ==> r[i] == CheckFrom(results[i])
  {
    seq(|results|, i requires 0 <= i < |results| => CheckFrom(results[i]))
  }

  function ReadChecks(json: Json): Result<seq<Check>, NotAReport> {
    match Get(json, "results")
    case None => Ok([])
    case Some(v) => if v.Array? then Ok(ChecksFrom(v.items)) else Err(IllTyped("results"))
  }

  /** `parse_verify_report`. */
  function ParseVerify(json: Json, exit: Option<int>): Result<Report, NotAReport> {
    var stated := OptionalBool(json, "ok");
    if stated.Err? then Err(stated.error)
    else
      var failed := OptionalCount(json, "failed_count");
      if failed.Err? then Err(failed.error)
      else
        var skipped := OptionalBool(json, "was_skipped");
        if skipped.Err? then Err(skipped.error)
        else
          var ledger := OptionalBool(json, "ledger_present");
          if ledger.Err? then Err(ledger.error)
          else
            var checks := ReadChecks(json);
            if checks.Err? then Err(checks.error)
            else if stated.value.None? && failed.value.None? then Err(NoVerdict)
            else
              var wasSkipped := skipped.value.GetOr(false) || ledger.value == Some(false);
              var ok := && stated.value.GetOr(true)
                        && failed.value.GetOr(0) == 0
                        && (forall i | 0 <= i < |checks.value| :: checks.value[i].ok)
                        && !wasSkipped
                        && exit == Some(0);
              Ok(Report(ok, checks.value, wasSkipped))
  }

  ghost predicate IsGreen(json: Json, exit: Option<int>) {
    ParseVerify(json, exit).Ok? && ParseVerify(json, exit).value.ok
  }

  /** A signal that is absent or has its harmless value. */
  ghost predicate Harmless(json: Json, key: string, value: Json) {
    Get(json, key).None? || Get(json, key) == Some(value)
  }

  ghost predicate NoneFailed(results: Option<Json>) {
    results.Some? ==> results.value.Array? && forall i :: 0 <= i < |results.value.items| ==> Str0(results.value.items[i], "status") != "failed"
  }

  /** Green exactly when there is a verdict and no signal speaks against it; a wrong JSON type speaks against it. */
  lemma GreenIff(json: Json, exit: Option<int>)
    ensures IsGreen(json, exit) <==>
              && exit == Some(0)
              && Harmless(json, "ok", Bool(true)) && Harmless(json, "failed_count", Number(0))
              && Harmless(json, "was_skipped", Bool(false)) && Harmless(json, "ledger_present", Bool(true))
              && NoneFailed(Get(json, "results"))
              && !(Get(json, "ok").None? && Get(json, "failed_count").None?)
  {
  }

  /** One signal moved toward failure. */
  datatype Move =
    | StateFailure
    | RaiseCount(added: nat)
    | FailResult(index: nat)
    | AddResult(result: Json)
    | Skip
    | LoseLedger
    | FailExit(code: Option<int>)

  predicate IsMove(m: Move) {
    (m.FailExit? ==> m.code != Some(0)) && (m.RaiseCount? ==> m.added > 0)
  }

  function Put(json: Json, key: string, value: Json): Json {
    if json.Object? then Object(json.fields[key := value]) else json
  }

  function Results(json: Json): seq<Json> {
    var v := Get(json, "results");
    if v.Some? && v.value.Array? then v.value.items else []
  }

  function Apply(m: Move, json: Json, exit: Option<int>): (Json, Option<int>) {
    match m
    case StateFailure => (Put(json, "ok", Bool(false)), exit)
    case RaiseCount(added) =>
      var v := Get(json, "failed_count");
      (Put(json, "failed_count", Number((if v.Some? && v.value.Number? then Max(v.value.number, 0) else 0) + added)), exit)
    case FailResult(index) =>
      var rs := Results(json);
      (if index < |rs| then Put(json, "results", Array(rs[index := Put(rs[index], "status", Str("failed"))])) else json, exit)
    case AddResult(result) =>
      (if Get(json, "results").Some? && !Get(json, "results").value.Array? then json else Put(json, "results", Array(Results(json) + [result])), exit)
    case Skip => (Put(json, "was_skipped", Bool(true)), exit)
    case LoseLedger => (Put(json, "ledger_present", Bool(false)), exit)
    case FailExit(code) => (json, code)
  }

  function ApplyAll(moves: seq<Move>, json: Json, exit: Option<int>): (Json, Option<int>) {
    if moves == [] then (json, exit)
    else
      var next := Apply(moves[0], json, exit);
      ApplyAll(moves[1..], next.0, next.1)
  }

  lemma MoveNeverGreens(m: Move, json: Json, exit: Option<int>)
    requires IsMove(m) && !IsGreen(json, exit)
    ensures !IsGreen(Apply(m, json, exit).0, Apply(m, json, exit).1)
  {
    var next := Apply(m, json, exit);
    GreenIff(json, exit);
    GreenIff(next.0, next.1);
    if m.FailResult? || m.AddResult? {
      ResultsStayFailed(m, json, exit);
    }
  }

  lemma ResultsStayFailed(m: Move, json: Json, exit: Option<int>)
    requires m.FailResult? || m.AddResult?
    ensures NoneFailed(Get(Apply(m, json, exit).0, "results")) ==> NoneFailed(Get(json, "results"))
  {
    var before, after := Results(json), Results(Apply(m, json, exit).0);
    assert |before| <= |after|;
    assert forall i :: 0 <= i < |before| ==> Str0(before[i], "status") == "failed" ==> Str0(after[i], "status") == "failed";
  }

  /** However many signals move toward failure, in whatever order, a report that was not green does not become green. */
  lemma {:induction false} VerdictIsMonotone(moves: seq<Move>, json: Json, exit: Option<int>)
    requires (forall i :: 0 <= i < |moves| ==> IsMove(moves[i])) && !IsGreen(json, exit)
    ensures !IsGreen(ApplyAll(moves, json, exit).0, ApplyAll(moves, json, exit).1)
  {
    if moves != [] {
      MoveNeverGreens(moves[0], json, exit);
      var next := Apply(moves[0], json, exit);
      VerdictIsMonotone(moves[1..], next.0, next.1);
    }
  }

  /** Absent, or of the type the reader asks for. */
  ghost predicate IsBoolOrAbsent(v: Option<Json>) {
    v.None? || v.value.Bool?
  }

  ghost predicate IsCountOrAbsent(v: Option<Json>) {
    v.None? || (v.value.Number? && 0 <= v.value.number < 0x1_0000_0000_0000_0000)
  }

  /** A report is read exactly when every signal in it has its type and there is a verdict. */
  lemma ReadIff(json: Json, exit: Option<int>)
    ensures ParseVerify(json, exit).Ok? <==>
              && IsBoolOrAbsent(Get(json, "ok")) && IsCountOrAbsent(Get(json, "failed_count"))
              && IsBoolOrAbsent(Get(json, "was_skipped")) && IsBoolOrAbsent(Get(json, "ledger_present"))
              && (Get(json, "results").None? || Get(json, "results").value.Array?)
              && (Get(json, "ok").Some? || Get(json, "failed_count").Some?)
  {
  }

  /** A check tells of its result: its version and name, whether it failed, and the error or the odd status. */
  ghost predicate TellsOf(c: Check, result: Json) {
    var version, name, status := Str0(result, "version"), Str0(result, "name"), Str0(result, "status");
    && (c.ok <==> status != "failed")
    && (name != "" && name != version ==> c.name == version + "_" + name)
    && (name == "" || name == version ==> c.name == version)
    && (forall text :: Get(result, "error") == Some(Str(text)) ==> c.detail == Some(text))
    && ((forall text :: Get(result, "error") != Some(Str(text))) ==> c.detail == if status == "verified" then None else Some(status))
  }

  /** The checks of a report are its results, one for one and in order, and a green report has no failed check. */
  lemma ChecksAreResults(json: Json, exit: Option<int>)
    requires ParseVerify(json, exit).Ok?
    ensures var r := ParseVerify(json, exit).value;
            && |r.checks| == |Results(json)| && (forall i :: 0 <= i < |r.checks| ==> TellsOf(r.checks[i], Results(json)[i]))
            && (r.skipped <==> Get(json, "was_skipped") == Some(Bool(true)) || Get(json, "ledger_present") == Some(Bool(false)))
            && (r.ok ==> !r.skipped && forall i :: 0 <= i < |r.checks| ==> r.checks[i].ok)
  {
  }

  // ---------------------------------------------------------------------------
  // The change-set

  /** A change as far as the gate reads it: no tier means unclassified. */
  datatype Change = Change(kind: string, object_: string, tier: Option<string>, detail: Option<string>)

  datatype ChangeSet = ChangeSet(changes: seq<Change>, contractVersion: nat)

  function Shape(json: Json): string {
    match json
    case Null => "null"
    case Bool(_) => "a boolean"
    case Number(_) => "a number"
    case Fraction => "a number"
    case Str(_) => "a string"
    case Array(_) => "an array"
    case Object(_) => "an object"
  }

  const UNPARSEABLE: string := "unparseable"

  function Placeholder(index: nat, entry: Json): Change {
    Change(UNPARSEABLE, "<unreadable entry at index " + Decimal(index) + ">", None,
           Some("the migration adapter emitted " + Shape(entry) + " where a change entry was expected"))
  }

  /** `schema_change_from`, over the reader of one entry. */
  function ChangeFrom(index: nat, entry: Json, read: Json -> Option<Change>): Change {
    match read(entry)
    case Some(change) => change
    case None => Placeholder(index, entry)
  }

  /** `parse_change_set`. */
  function ParseChangeSet(json: Json, read: Json -> Option<Change>): Option<ChangeSet> {
    var error, raw := Get(json, "error"), Get(json, "change_set");
    if (error.Some? && error.value.Object?) || raw.None? || !raw.value.Object? then None
    else
      var version := Get(raw.value, "contract_version");
      if version.None? || !version.value.Number? || !(0 < version.value.number <= U32_MAX) then None
      else
        match Get(raw.value, "changes")
        case None => Some(ChangeSet([], version.value.number))
        case Some(Array(entries)) =>
          Some(ChangeSet(seq(|entries|, i requires 0 <= i < |entries| => ChangeFrom(i, entries[i], read)), version.value.number))
        case Some(_) => None
  }

  /** The envelope a change-set can be read from, and the entries in it. */
  ghost predicate Carries(json: Json, entries: seq<Json>, version: nat) {
    && !(Get(json, "error").Some? && Get(json, "error").value.Object?)
    && Get(json, "change_set").Some? && Get(json, "change_set").value.Object?
    && var envelope := Get(json, "change_set").value;
       && Get(envelope, "contract_version") == Some(Number(version)) && 0 < version <= U32_MAX
       && (Get(envelope, "changes") == Some(Array(entries)) || (Get(envelope, "changes").None? && entries == []))
  }

  /** A readable entry stays as it was read, tier included; any other is an unclassified change that names its position. */
  ghost predicate StandsFor(change: Change, i: nat, entry: Json, read: Option<Change>) {
    if read.Some? then change == read.value
    else
      && change.kind == "unparseable" && change.tier.None?
      && change.object_ == "<unreadable entry at index " + Decimal(i) + ">"
      && change.detail == Some("the migration adapter emitted " + Shape(entry) + " where a change entry was expected")
  }

  ghost predicate StandForAll(changes: seq<Change>, entries: seq<Json>, read: Json -> Option<Change>) {
    |changes| == |entries| && forall i :: 0 <= i < |entries| ==> StandsFor(changes[i], i, entries[i], read(entries[i]))
  }

  /**
   A change-set is read exactly from a sound envelope, with one change per entry at
   the entry's position: a readable entry as it was read, and every entry the reader
   rejects as an unclassified change that names the position.
   */
  lemma ChangeSetIsPositional(json: Json, read: Json -> Option<Change>, set_: ChangeSet)
    ensures ParseChangeSet(json, read) == Some(set_) <==>
              exists entries :: Carries(json, entries, set_.contractVersion) && StandForAll(set_.changes, entries, read)
  {
    if ParseChangeSet(json, read) == Some(set_) {
      var changes := Get(Get(json, "change_set").value, "changes");
      var entries := if changes.None? then [] else changes.value.items;
      assert Carries(json, entries, set_.contractVersion) && StandForAll(set_.changes, entries, read);
    }
    if entries :| Carries(json, entries, set_.contractVersion) && StandForAll(set_.changes, entries, read) {
      CarriedIsRead(json, read, set_, entries);
    }
  }

  lemma CarriedIsRead(json: Json, read: Json -> Option<Change>, set_: ChangeSet, entries: seq<Json>)
    requires Carries(json, entries, set_.contractVersion) && StandForAll(set_.changes, entries, read)
    ensures ParseChangeSet(json, read) == Some(set_)
  {
    forall i | 0 <= i < |entries| ensures set_.changes[i] == ChangeFrom(i, entries[i], read) {
      assert StandsFor(set_.changes[i], i, entries[i], read(entries[i]));
    }
    assert set_.changes == seq(|entries|, i requires 0 <= i < |entries| => ChangeFrom(i, entries[i], read));
  }

  /** Whether every change is classified: what the gate needs before it admits anything. */
  ghost predicate AllTiered(s: ChangeSet) {
    forall i :: 0 <= i < |s.changes| ==> s.changes[i].tier.Some?
  }

  /** Spoiling one entry never makes a change-set look cleaner. */
  lemma SpoiltEntryIsUnclassified(json: Json, read: Json -> Option<Change>, i: nat)
    requires ParseChangeSet(json, read).Some?
    requires var changes := Get(Get(json, "change_set").value, "changes");
             changes.Some? && i < |changes.value.items| && read(changes.value.items[i]).None?
    ensures !AllTiered(ParseChangeSet(json, read).value)
  {
    assert ParseChangeSet(json, read).value.changes[i].tier.None?;
  }
}
