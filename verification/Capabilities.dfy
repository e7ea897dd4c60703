/**
 Which capabilities the migration adapter advertises for an installed confiture,
 and what `doctor` says about the same binary.
 */
module Capabilities {
  import opened Basics
  import opened Text

  datatype Capability =
    | CurrentRevision | Up | DownTo | Verify | Preflight
    | WindowSafe | RiskTier | DeepClassification | PendingScope

  const BASE: seq<Capability> := [CurrentRevision, Up, DownTo, Verify, Preflight]

  datatype Triple = Triple(major: nat, minor: nat, patch: nat)

  /** The order of tuples: numeric, component by component. */
  predicate AtLeast(a: Triple, b: Triple) {
    a.major > b.major || (a.major == b.major && (a.minor > b.minor || (a.minor == b.minor && a.patch >= b.patch)))
  }

  /** One row of the published table: a capability and the release it is trusted from. */
  datatype Floor = Floor(capability: Capability, from: Option<Triple>)

  const FLOORS: seq<Floor> := [
    Floor(WindowSafe, Some(Triple(0, 44, 0))),
    Floor(RiskTier, Some(Triple(0, 44, 0))),
    Floor(DeepClassification, Some(Triple(0, 44, 0))),
    Floor(PendingScope, Some(Triple(1, 35, 0)))]

  // ---------------------------------------------------------------------------
  // The adapter

  predicate IsDot(c: char) {
    c == '.'
  }

  /** `version_triple`: one to three decimal components and nothing else. */
  function VersionTriple(version: string): Option<Triple> {
    var parts := Split(version, IsDot);
    if |parts| > 3 then None
    else
      var major := ParseUint(parts[0], U32_MAX);
      var minor := if |parts| > 1 then ParseUint(parts[1], U32_MAX) else Some(0);
      var patch := if |parts| > 2 then ParseUint(parts[2], U32_MAX) else Some(0);
      if major.None? || minor.None? || patch.None? then None
      else Some(Triple(major.value, minor.value, patch.value))
  }

  predicate VersionAtOrAbove(version: string, floor: Triple) {
    VersionTriple(version).Some? && AtLeast(VersionTriple(version).value, floor)
  }

  /** `capabilities_for`. */
  method CapabilitiesFor(version: string) returns (capabilities: seq<Capability>)
    ensures capabilities == Advertised(VersionTriple(version))
  {
    capabilities := BASE;
    if VersionAtOrAbove(version, Triple(0, 44, 0)) {
      capabilities := capabilities + [WindowSafe];
    }
    var riskTier := Some(Triple(0, 44, 0));
    if riskTier.Some? && VersionAtOrAbove(version, riskTier.value) {
      capabilities := capabilities + [RiskTier];
    }
    if VersionAtOrAbove(version, Triple(0, 44, 0)) {
      capabilities := capabilities + [DeepClassification];
    }
    if VersionAtOrAbove(version, Triple(1, 35, 0)) {
      capabilities := capabilities + [PendingScope];
    }
    GrantedAll(VersionTriple(version));
  }

  lemma GrantedAll(v: Option<Triple>)
    ensures Granted(FLOORS, v) ==
              (if Meets(v, FLOORS[0]) then [WindowSafe] else []) + (if Meets(v, FLOORS[1]) then [RiskTier] else [])
            + (if Meets(v, FLOORS[2]) then [DeepClassification] else []) + (if Meets(v, FLOORS[3]) then [PendingScope] else [])
  {
    GrantedFour(FLOORS[0], FLOORS[1], FLOORS[2], FLOORS[3], v);
  }

  lemma GrantedFour(a: Floor, b: Floor, c: Floor, d: Floor, v: Option<Triple>)
    ensures Granted([a, b, c, d], v) ==
              (if Meets(v, a) then [a.capability] else []) + (if Meets(v, b) then [b.capability] else [])
            + (if Meets(v, c) then [c.capability] else []) + (if Meets(v, d) then [d.capability] else [])
  {
    assert [a, b, c, d][1..] == [b, c, d] && [b, c, d][1..] == [c, d] && [c, d][1..] == [d];
    assert Granted([a, b, c, d], v) == (if Meets(v, a) then [a.capability] else []) + Granted([b, c, d], v);
    assert Granted([b, c, d], v) == (if Meets(v, b) then [b.capability] else []) + Granted([c, d], v);
    assert Granted([c, d], v) == (if Meets(v, c) then [c.capability] else []) + Granted([d], v);
    assert Granted([d], v) == if Meets(v, d) then [d.capability] else [];
  }

  predicate Meets(v: Option<Triple>, f: Floor) {
    v.Some? && f.from.Some? && AtLeast(v.value, f.from.value)
  }

  /** The capabilities of the table that a version meets, in the table's order. */
  function Granted(floors: seq<Floor>, v: Option<Triple>): seq<Capability> {
    if floors == [] then []
    else (if Meets(v, floors[0]) then [floors[0].capability] else []) + Granted(floors[1..], v)
  }

  function Advertised(v: Option<Triple>): seq<Capability> {
    BASE + Granted(FLOORS, v)
  }

  /** `preflight_scope`: whether `--scope pending` is passed. */
  predicate PassesScope(version: string) {
    VersionAtOrAbove(version, Triple(1, 35, 0))
  }

  lemma {:induction false} GrantedIff(floors: seq<Floor>, v: Option<Triple>, c: Capability)
    ensures c in Granted(floors, v) <==> exists i :: 0 <= i < |floors| && floors[i].capability == c && Meets(v, floors[i])
  {
    if floors != [] {
      GrantedIff(floors[1..], v, c);
      assert Granted(floors, v) == (if Meets(v, floors[0]) then [floors[0].capability] else []) + Granted(floors[1..], v);
      if i :| 0 <= i < |floors| && floors[i].capability == c && Meets(v, floors[i]) {
        assert i > 0 ==> floors[1..][i - 1] == floors[i];
      }
      if i :| 0 <= i < |floors[1..]| && floors[1..][i].capability == c && Meets(v, floors[1..][i]) {
        assert floors[i + 1] == floors[1..][i];
      }
    }
  }

  /**
   A newer version is never advertised less, an unreadable one exactly the base
   set, and `--scope pending` is passed exactly when `pending_scope` is advertised.
   */
  lemma AdvertisingIsMonotone(a: Triple, b: Triple, c: Capability)
    requires AtLeast(b, a)
    ensures c in Advertised(Some(a)) ==> c in Advertised(Some(b))
    ensures Advertised(None) == BASE
  {
    GrantedIff(FLOORS, Some(a), c);
    GrantedIff(FLOORS, Some(b), c);
    GrantedAll(None);
    if i :| 0 <= i < |FLOORS| && FLOORS[i].capability == c && Meets(Some(a), FLOORS[i]) {
      assert Meets(Some(b), FLOORS[i]);
    }
  }

  lemma ScopeIsAdvertised(version: string)
    ensures PassesScope(version) <==> PendingScope in Advertised(VersionTriple(version))
  {
    GrantedAll(VersionTriple(version));
  }

  // ---------------------------------------------------------------------------
  // Doctor

  const CONFITURE_FLOOR: (nat, nat) := (1, 35)

  predicate HasDot(w: string) {
    '.' in w
  }

  function FirstWithDot(words: seq<string>): Option<string> {
    if words == [] then None else if HasDot(words[0]) then Some(words[0]) else FirstWithDot(words[1..])
  }

  predicate NotVersionChar(c: char) {
    !IsDigit(c) && c != '.'
  }

  /** The leading run of digits and dots, after anything that is not a digit. */
  function LeadingDigits(token: string): string {
    var k := Find(token, IsDigit);
    var rest := token[k..];
    rest[..Find(rest, NotVersionChar)]
  }

  /** `parse_version` of `doctor`: major and minor only. */
  function DoctorVersion(text: string): Option<(nat, nat)> {
    var token := FirstWithDot(Words(text, IsWhite));
    if token.None? then None
    else
      var parts := Split(LeadingDigits(token.value), IsDot);
      if |parts| < 2 then None
      else
        var major, minor := ParseUint(parts[0], U32_MAX), ParseUint(parts[1], U32_MAX);
        if major.None? || minor.None? then None else Some((major.value, minor.value))
  }

  predicate DoctorPasses(text: string) {
    match DoctorVersion(text)
    case None => false
    case Some(v) => v.0 > CONFITURE_FLOOR.0 || (v.0 == CONFITURE_FLOOR.0 && v.1 >= CONFITURE_FLOOR.1)
  }

  /** Whether `below_floor` lists a row as withheld from `(major, minor)`. */
  predicate Withheld(f: Floor, major: nat, minor: nat) {
    f.from.None? || f.from.value.major > major || (f.from.value.major == major && f.from.value.minor > minor)
  }

  function BelowFloor(floors: seq<Floor>, major: nat, minor: nat): seq<Capability> {
    if floors == [] then []
    else (if Withheld(floors[0], major, minor) then [floors[0].capability] else []) + BelowFloor(floors[1..], major, minor)
  }

  /** The adapter's own `parse_version`: the word after the mark, on the first line that begins with it. */
  function InstalledVersion(lines: seq<string>, mark: string): string {
    if lines == [] then "unknown"
    else
      var line := Trim(lines[0], IsWhite);
      if StartsWith(line, mark) then
        var words := Words(line[|mark|..], IsWhite);
        if words == [] then "unknown" else words[0]
      else InstalledVersion(lines[1..], mark)
  }

  const MARK: string := "confiture version "

  // ---------------------------------------------------------------------------
  // The two readings of one binary

  /**
   `below_floor` and the adapter agree on a row for every readable release exactly
   when the row's floor has no patch component: `doctor` does not read the patch.
   */
  lemma WithheldIffNotMet(f: Floor)
    ensures (forall major, minor, patch :: Withheld(f, major, minor) <==> !Meets(Some(Triple(major, minor, patch)), f))
       <==> f.from.None? || f.from.value.patch == 0
  {
    if f.from.Some? && f.from.value.patch > 0 {
      var t := f.from.value;
      assert !Withheld(f, t.major, t.minor) && !Meets(Some(Triple(t.major, t.minor, 0)), f);
    }
  }

  lemma {:induction false} BelowFloorIff(floors: seq<Floor>, major: nat, minor: nat, c: Capability)
    ensures c in BelowFloor(floors, major, minor) <==> exists i :: 0 <= i < |floors| && floors[i].capability == c && Withheld(floors[i], major, minor)
  {
    if floors != [] {
      BelowFloorIff(floors[1..], major, minor, c);
      assert BelowFloor(floors, major, minor)
          == (if Withheld(floors[0], major, minor) then [floors[0].capability] else []) + BelowFloor(floors[1..], major, minor);
      if i :| 0 <= i < |floors| && floors[i].capability == c && Withheld(floors[i], major, minor) {
        assert i > 0 ==> floors[1..][i - 1] == floors[i];
      }
      if i :| 0 <= i < |floors[1..]| && floors[1..][i].capability == c && Withheld(floors[1..][i], major, minor) {
        assert floors[i + 1] == floors[1..][i];
      }
    }
  }

  /** For every release the adapter can read, `below_floor` lists exactly the gated capabilities it is not advertised. */
  lemma BelowFloorIsExact(v: Triple, i: nat)
    requires i < |FLOORS|
    ensures FLOORS[i].capability in BelowFloor(FLOORS, v.major, v.minor) <==> FLOORS[i].capability !in Advertised(Some(v))
  {
    BelowFloorIff(FLOORS, v.major, v.minor, FLOORS[i].capability);
    GrantedIff(FLOORS, Some(v), FLOORS[i].capability);
    WithheldIffNotMet(FLOORS[i]);
    assert forall j :: 0 <= j < |FLOORS| && FLOORS[j].capability == FLOORS[i].capability ==> j == i;
  }

  /** `M.m.p` followed by anything that does not start with a digit. */
  function Release(v: Triple, suffix: string): string {
    Decimal(v.major) + "." + Decimal(v.minor) + "." + (Decimal(v.patch) + suffix)
  }

  ghost predicate IsSuffix(suffix: string) {
    NoneIn(suffix, IsWhite) && (suffix == [] || !IsDigit(suffix[0]))
  }

  predicate IsU32(v: Triple) {
    v.major <= U32_MAX && v.minor <= U32_MAX && v.patch <= U32_MAX
  }

  lemma DecimalHasNoDot(n: nat)
    ensures forall x :: x in Decimal(n) ==> !IsDot(x) && !NotVersionChar(x) && !IsWhite(x)
  {
  }

  lemma DottedShape(a: string, b: string, tail: string)
    ensures a + "." + b + "." + tail == a + ['.'] + (b + ['.'] + tail)
  {
  }

  lemma SplitDotted(a: string, b: string, tail: string)
    requires (forall x :: x in a ==> !IsDot(x)) && (forall x :: x in b ==> !IsDot(x))
    ensures Split(a + ['.'] + (b + ['.'] + tail), IsDot) == [a] + ([b] + Split(tail, IsDot))
  {
    SplitAt(a, '.', b + ['.'] + tail, IsDot);
    SplitAt(b, '.', tail, IsDot);
  }

  lemma TwoThen<T>(a: T, b: T, rest: seq<T>)
    ensures [a] + ([b] + rest) == [a, b] + rest
  {
  }

  lemma ReleaseSplits(v: Triple, tail: string)
    ensures Split(Decimal(v.major) + "." + Decimal(v.minor) + "." + tail, IsDot) == [Decimal(v.major), Decimal(v.minor)] + Split(tail, IsDot)
  {
    DecimalHasNoDot(v.major);
    DecimalHasNoDot(v.minor);
    DottedShape(Decimal(v.major), Decimal(v.minor), tail);
    SplitDotted(Decimal(v.major), Decimal(v.minor), tail);
    TwoThen(Decimal(v.major), Decimal(v.minor), Split(tail, IsDot));
  }

  /** The last component of a release with a suffix is not a number, or there are too many components. */
  lemma PatchReads(patch: nat, suffix: string)
    requires suffix == [] || !IsDigit(suffix[0])
    ensures var parts := Split(Decimal(patch) + suffix, IsDot);
            if suffix == [] then parts == [Decimal(patch)]
            else |parts| > 1 || ParseUint(parts[0], U32_MAX) == None
  {
    DecimalHasNoDot(patch);
    var d := Decimal(patch);
    if suffix == [] {
      assert d + suffix == d;
      SplitNone(d, IsDot);
    } else if suffix[0] == '.' {
      assert d + suffix == d + ['.'] + suffix[1..];
      SplitAt(d, '.', suffix[1..], IsDot);
    } else {
      var k := Find(d + suffix, IsDot);
      var first := (d + suffix)[..k];
      NotANumber(d, suffix, first, k);
    }
  }

  lemma NotANumber(d: string, suffix: string, first: string, k: nat)
    requires d != [] && (forall x :: x in d ==> IsDigit(x)) && suffix != [] && !IsDigit(suffix[0]) && suffix[0] != '.'
    requires k == Find(d + suffix, IsDot) && first == (d + suffix)[..k]
    ensures ParseUint(first, U32_MAX) == None
  {
    var s := d + suffix;
    assert forall i :: 0 <= i < |d| ==> s[i] == d[i] && d[i] in d;
    assert s[|d|] == suffix[0] && forall i :: 0 <= i <= |d| ==> !IsDot(s[i]);
    assert first[|d|] == suffix[0] && first[0] == d[0] && d[0] in d;
    assert first[|d|] in first;
  }

  /** What the adapter reads: the release itself, if it is a plain one. */
  lemma AdapterReads(v: Triple, suffix: string)
    requires IsSuffix(suffix)
    ensures VersionTriple(Release(v, suffix)) == if suffix == [] && IsU32(v) then Some(v) else None
  {
    ReleaseSplits(v, Decimal(v.patch) + suffix);
    PatchReads(v.patch, suffix);
    ParseDecimal(v.major, U32_MAX);
    ParseDecimal(v.minor, U32_MAX);
    ParseDecimal(v.patch, U32_MAX);
  }

  /** A missing minor or patch component is zero. */
  lemma ShortReleaseReads(major: nat, minor: nat)
    requires major <= U32_MAX && minor <= U32_MAX
    ensures VersionTriple(Decimal(major)) == Some(Triple(major, 0, 0))
    ensures VersionTriple(Decimal(major) + "." + Decimal(minor)) == Some(Triple(major, minor, 0))
  {
    DecimalHasNoDot(major);
    DecimalHasNoDot(minor);
    SplitNone(Decimal(major), IsDot);
    SplitNone(Decimal(minor), IsDot);
    SplitAt(Decimal(major), '.', Decimal(minor), IsDot);
    ParseDecimal(major, U32_MAX);
    ParseDecimal(minor, U32_MAX);
  }

  /** What `doctor` reads: major and minor, whatever follows. */
  lemma DoctorReadsToken(v: Triple, suffix: string)
    ensures var parts := Split(LeadingDigits(Release(v, suffix)), IsDot);
            |parts| >= 2 && parts[0] == Decimal(v.major) && parts[1] == Decimal(v.minor)
  {
    var token := Release(v, suffix);
    var plain := Decimal(v.major) + "." + Decimal(v.minor) + ".";
    var rest := Decimal(v.patch) + suffix;
    DecimalHasNoDot(v.major);
    DecimalHasNoDot(v.minor);
    assert token == plain + rest;
    assert Decimal(v.major)[0] in Decimal(v.major) && token[0] == Decimal(v.major)[0];
    FindAt(token, IsDigit, 0);
    assert token[0..] == token;
    var k := Find(token, NotVersionChar);
    assert forall x :: x in plain ==> !NotVersionChar(x);
    assert forall i :: 0 <= i < |plain| ==> token[i] == plain[i] && plain[i] in plain;
    assert token[..k] == plain + rest[..k - |plain|];
    ReleaseSplits(v, rest[..k - |plain|]);
  }

  lemma ReleaseIsWord(v: Triple, suffix: string)
    requires IsSuffix(suffix)
    ensures IsWord(Release(v, suffix), IsWhite) && HasDot(Release(v, suffix))
  {
    DecimalHasNoDot(v.major);
    DecimalHasNoDot(v.minor);
    DecimalHasNoDot(v.patch);
    var a, b, c := Decimal(v.major), Decimal(v.minor), Decimal(v.patch) + suffix;
    var s := Release(v, suffix);
    forall x | x in s ensures !IsWhite(x) {
      assert x in a || x == '.' || x in b || x in Decimal(v.patch) || x in suffix;
    }
    forall i | 0 <= i < |s| ensures !IsWhite(s[i]) {
      assert s[i] in s;
    }
    assert s[|a|] == '.';
  }

  /** The output of `confiture --version`: the mark, the version, and more lines. */
  function Output(first: string, second: string, version: string, more: string): string {
    first + " " + second + " " + version + "\n" + more
  }

  ghost predicate IsPlainWord(w: string) {
    IsWord(w, IsWhite) && !HasDot(w)
  }

  lemma DoctorReads(first: string, second: string, v: Triple, suffix: string, more: string)
    requires IsPlainWord(first) && IsPlainWord(second) && IsSuffix(suffix)
    ensures DoctorVersion(Output(first, second, Release(v, suffix), more))
         == if v.major <= U32_MAX && v.minor <= U32_MAX then Some((v.major, v.minor)) else None
  {
    var token := Release(v, suffix);
    ReleaseIsWord(v, suffix);
    WordsOfOutput(first, second, token, more);
    FindsThird(first, second, token, Words("\n" + more, IsWhite));
    DoctorReadsToken(v, suffix);
    ParseDecimal(v.major, U32_MAX);
    ParseDecimal(v.minor, U32_MAX);
  }

  lemma FindsThird(first: string, second: string, token: string, rest: seq<string>)
    requires !HasDot(first) && !HasDot(second) && HasDot(token)
    ensures FirstWithDot([first, second, token] + rest) == Some(token)
  {
    var all := [first, second, token] + rest;
    assert FirstWithDot(all) == FirstWithDot(all[1..]);
    assert all[1..][0] == second && FirstWithDot(all[1..]) == FirstWithDot(all[1..][1..]);
    assert all[1..][1..][0] == token;
  }

  lemma WordsOfOutput(first: string, second: string, version: string, more: string)
    requires IsWord(first, IsWhite) && IsWord(second, IsWhite) && IsWord(version, IsWhite)
    ensures Words(Output(first, second, version, more), IsWhite) == [first, second, version] + Words("\n" + more, IsWhite)
  {
    var tail := "\n" + more;
    var r2 := " " + version + tail;
    var r1 := " " + second + r2;
    OutputShape(first, second, version, more);
    WordsStep([], first, r1, IsWhite);
    WordsStep(" ", second, r2, IsWhite);
    WordsStep(" ", version, tail, IsWhite);
    ThreeThen(first, second, version, Words(tail, IsWhite));
  }

  lemma OutputShape(first: string, second: string, version: string, more: string)
    ensures Output(first, second, version, more) == [] + first + (" " + second + (" " + version + ("\n" + more)))
  {
  }

  lemma ThreeThen<T>(a: T, b: T, c: T, rest: seq<T>)
    ensures [a] + ([b] + ([c] + rest)) == [a, b, c] + rest
  {
  }

  lemma InstalledReads(first: string, second: string, version: string, more: string, mark: string)
    requires IsWord(first, IsWhite) && IsWord(second, IsWhite) && IsWord(version, IsWhite) && mark == first + " " + second + " "
    ensures InstalledVersion(Lines(Output(first, second, version, more)), mark) == version
  {
    var line := mark + version;
    assert Output(first, second, version, more) == line + "\n" + more;
    MarkedLine(mark, version, line);
    LinesCons(line, more);
    MarkedRest(mark, version);
  }

  lemma MarkedLine(mark: string, version: string, line: string)
    requires line == mark + version && mark != [] && !IsWhite(mark[0]) && IsWord(version, IsWhite) && '\n' !in mark
    ensures '\n' !in line && StripCr(line) == line && Trim(line, IsWhite) == line
  {
    assert line[0] == mark[0] && line[|line| - 1] == version[|version| - 1];
    TrimAt([], line, [], IsWhite);
    assert [] + line + [] == line;
  }

  lemma MarkedRest(mark: string, version: string)
    requires IsWord(version, IsWhite)
    ensures StartsWith(mark + version, mark) && Words((mark + version)[|mark|..], IsWhite) == [version]
  {
    assert (mark + version)[..|mark|] == mark && (mark + version)[|mark|..] == version;
    WordsOfOne(version, IsWhite);
  }

  /**
   When `doctor` passes a binary, every gated capability is advertised for it
   exactly when its version is a plain release whose patch fits 32 bits. So a
   passing check certifies every plain `M.m.p`, and also passes pre-releases that
   a deploy then treats as able to do nothing gated.
   */
  lemma DoctorPassesIff(first: string, second: string, v: Triple, suffix: string, more: string, mark: string)
    requires IsPlainWord(first) && IsPlainWord(second) && IsSuffix(suffix) && mark == first + " " + second + " "
    ensures var text := Output(first, second, Release(v, suffix), more);
            var caps := Advertised(VersionTriple(InstalledVersion(Lines(text), mark)));
            && (DoctorPasses(text) <==> v.major <= U32_MAX && v.minor <= U32_MAX && (v.major > 1 || (v.major == 1 && v.minor >= 35)))
            && (DoctorPasses(text) ==>
              && ((forall i :: 0 <= i < |FLOORS| ==> FLOORS[i].capability in caps) <==> suffix == [] && v.patch <= U32_MAX)
              && (suffix != [] ==> caps == BASE))
  {
    var text := Output(first, second, Release(v, suffix), more);
    ReleaseIsWord(v, suffix);
    DoctorReads(first, second, v, suffix, more);
    InstalledReads(first, second, Release(v, suffix), more, mark);
    AdapterReads(v, suffix);
    if DoctorPasses(text) {
      AllOrNothing(v, if suffix == [] && IsU32(v) then Some(v) else None);
    }
  }

  lemma AllOrNothing(v: Triple, read: Option<Triple>)
    requires v.major > CONFITURE_FLOOR.0 || (v.major == CONFITURE_FLOOR.0 && v.minor >= CONFITURE_FLOOR.1)
    requires read.Some? ==> read.value == v
    ensures (forall i :: 0 <= i < |FLOORS| ==> FLOORS[i].capability in Advertised(read)) <==> read.Some?
    ensures read.None? ==> Advertised(read) == BASE
  {
    GrantedAll(read);
    assert WindowSafe !in BASE && FLOORS[0].capability == WindowSafe;
  }

  /** The words confiture prints. */
  lemma MarkIsTwoWords()
    ensures IsPlainWord("confiture") && IsPlainWord("version") && MARK == "confiture" + " " + "version" + " "
  {
  }

  /** A pre-release that `doctor` passes and that is advertised nothing gated. */
  lemma PreReleasePasses(more: string)
    ensures Release(Triple(1, 35, 0), "rc1") == "1.35.0rc1"
    ensures var text := Output("confiture", "version", "1.35.0rc1", more);
            DoctorPasses(text) && Advertised(VersionTriple(InstalledVersion(Lines(text), MARK))) == BASE
  {
    MarkIsTwoWords();
    SpellPreRelease();
    AnyPreReleasePasses("confiture", "version", Triple(1, 35, 0), "rc1", more, MARK);
  }

  lemma SpellPreRelease()
    ensures Release(Triple(1, 35, 0), "rc1") == "1.35.0rc1" && IsSuffix("rc1")
  {
    assert Decimal(35) == Decimal(3) + [Digit(5)] && Decimal(3) == [Digit(3)];
    assert Decimal(1) == "1" && Decimal(0) == "0" && Decimal(35) == "35";
  }

  /** Every pre-release of a version at or above the floor passes, and has the base set alone. */
  lemma AnyPreReleasePasses(first: string, second: string, v: Triple, suffix: string, more: string, mark: string)
    requires IsPlainWord(first) && IsPlainWord(second) && mark == first + " " + second + " "
    requires IsSuffix(suffix) && suffix != [] && v.major <= U32_MAX && v.minor <= U32_MAX
    requires AtLeast(v, Triple(CONFITURE_FLOOR.0, CONFITURE_FLOOR.1, 0))
    ensures var text := Output(first, second, Release(v, suffix), more);
            DoctorPasses(text) && Advertised(VersionTriple(InstalledVersion(Lines(text), mark))) == BASE
  {
    DoctorReads(first, second, v, suffix, more);
    DoctorPassesIff(first, second, v, suffix, more, mark);
  }
}
