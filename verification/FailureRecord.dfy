/**
 The failure record a scheduled run leaves for its alert: its JSON form, and the
 loop that cuts its reason so that the record fits. Sizes are bytes of UTF-8.
 */
module FailureRecord {
  import opened Basics
  import opened Text
  import Unicode

  const MAX_BYTES: nat := 4096
  const MARK: string := "\U{2026} (truncated)"

  datatype Record = Record(
    event: string,
    fraise: Option<string>,
    environment: Option<string>,
    unit_: string,
    invocationId: string,
    atUnix: nat,
    reason: string)

  // ---------------------------------------------------------------------------
  // Sizes

  /** How many bytes a character takes. */
  function Width(c: char): (n: nat)
    ensures 1 <= n <= 4
  {
    |Unicode.Utf8(c)|
  }

  /** `str::len`. */
  function Bytes(s: string): nat {
    if s == [] then 0 else Width(s[0]) + Bytes(s[1..])
  }

  /** One character of a JSON string (section 7 of RFC 8259), as the serializer writes it. */
  function Escape(c: char): (r: string)
    ensures Bytes(r) >= Width(c)
  {
    if c == '"' then "\\\"" else if c == '\\' then "\\\\"
    else if c == '\U{0008}' then "\\b" else if c == '\U{000C}' then "\\f"
    else if c == '\n' then "\\n" else if c == '\r' then "\\r" else if c == '\t' then "\\t"
    else if c as int < 0x20 then "\\u00" + [Hex(c as int / 16), Hex(c as int % 16)]
    else
      assert [c][1..] == [];
      [c]
  }

  function Hex(d: int): char
    requires 0 <= d < 16
  {
    if d < 10 then Digit(d) else ('a' as int + d - 10) as char
  }

  function Escaped(s: string): string {
    if s == [] then [] else Escape(s[0]) + Escaped(s[1..])
  }

  function Quote(s: string): string {
    "\"" + Escaped(s) + "\""
  }

  /** A field's value: a string, null or a whole number. */
  datatype Scalar = Str(text: string) | Missing | Count(count: nat)

  function Show(v: Scalar): string {
    match v
    case Str(text) => Quote(text)
    case Missing => "null"
    case Count(n) => Decimal(n)
  }

  function OrMissing(s: Option<string>): Scalar {
    if s.None? then Missing else Str(s.value)
  }

  /** The fields before the reason, in the order they are written. */
  function Leading(r: Record): seq<(string, Scalar)> {
    [("event", Str(r.event)), ("fraise", OrMissing(r.fraise)), ("environment", OrMissing(r.environment)),
     ("unit", Str(r.unit_)), ("invocation_id", Str(r.invocationId)), ("at_unix", Count(r.atUnix))]
  }

  /** Each pair followed by a comma. */
  function Lead(pairs: seq<(string, Scalar)>): string {
    if pairs == [] then [] else Quote(pairs[0].0) + ":" + Show(pairs[0].1) + "," + Lead(pairs[1..])
  }

  /** Everything before the reason's text. */
  function Head(r: Record): string {
    "{" + Lead(Leading(r)) + Quote("reason") + ":\""
  }

  /** `serde_json::to_vec` of a record. */
  function Json(r: Record): string {
    Head(r) + Escaped(r.reason) + "\"}"
  }

  lemma {:induction false} BytesConcat(a: string, b: string)
    ensures Bytes(a + b) == Bytes(a) + Bytes(b)
  {
    if a == [] {
      assert a + b == b;
    } else {
      assert (a + b)[1..] == a[1..] + b;
      BytesConcat(a[1..], b);
    }
  }

  lemma {:induction false} EscapedConcat(a: string, b: string)
    ensures Escaped(a + b) == Escaped(a) + Escaped(b)
  {
    if a == [] {
      assert a + b == b;
    } else {
      assert (a + b)[1..] == a[1..] + b;
      EscapedConcat(a[1..], b);
      assert Escape(a[0]) + (Escaped(a[1..]) + Escaped(b)) == Escape(a[0]) + Escaped(a[1..]) + Escaped(b);
    }
  }

  /** Every byte of a text costs at least one byte of JSON. */
  lemma {:induction false} EscapingNeverShrinks(s: string)
    ensures Bytes(Escaped(s)) >= Bytes(s)
  {
    if s != [] {
      EscapingNeverShrinks(s[1..]);
      BytesConcat(Escape(s[0]), Escaped(s[1..]));
    }
  }

  /** The size of a record is that of its head, plus what its reason costs. */
  function Cost(s: string): nat {
    Bytes(Escaped(s))
  }

  function Size(r: Record): nat {
    Bytes(Json(r))
  }

  lemma SizeOf(r: Record)
    ensures Size(r) == Bytes(Head(r)) + Cost(r.reason) + 2
  {
    BytesConcat(Head(r) + Escaped(r.reason), "\"}");
    BytesConcat(Head(r), Escaped(r.reason));
    assert Bytes("\"}") == 2 by {
      assert "\"}"[1..] == "}" && "}"[1..] == [];
    }
  }

  lemma CostConcat(a: string, b: string)
    ensures Cost(a + b) == Cost(a) + Cost(b) && Bytes(a + b) == Bytes(a) + Bytes(b)
  {
    EscapedConcat(a, b);
    BytesConcat(Escaped(a), Escaped(b));
    BytesConcat(a, b);
  }

  /** Text that needs no escaping costs its own bytes. */
  lemma {:induction false} PlainCost(s: string)
    requires forall i :: 0 <= i < |s| ==> Escape(s[i]) == [s[i]]
    ensures Cost(s) == Bytes(s)
  {
    if s != [] {
      PlainCost(s[1..]);
      BytesConcat(Escape(s[0]), Escaped(s[1..]));
      assert [s[0]][1..] == [];
    }
  }

  lemma MarkIsPlain()
    ensures Cost(MARK) == Bytes(MARK) && MARK != []
  {
    PlainCost(MARK);
  }

  // ---------------------------------------------------------------------------
  // Character boundaries

  /** `is_char_boundary`: some prefix has exactly that many bytes. */
  predicate IsBoundary(s: string, k: nat) {
    exists i | 0 <= i <= |s| :: Bytes(s[..i]) == k
  }

  /** The prefix of that many bytes. */
  function PrefixAt(s: string, k: nat): (r: string)
    requires IsBoundary(s, k)
    ensures r <= s && Bytes(r) == k
  {
    if k == 0 then []
    else
      assert exists i :: 0 <= i <= |s| && Bytes(s[..i]) == k by {
      }
      BoundaryTail(s, k);
      assert s == [s[0]] + s[1..];
      [s[0]] + PrefixAt(s[1..], k - Width(s[0]))
  }

  lemma BoundaryTail(s: string, k: nat)
    requires IsBoundary(s, k) && k > 0
    ensures s != [] && Width(s[0]) <= k && IsBoundary(s[1..], k - Width(s[0]))
  {
    var i :| 0 <= i <= |s| && Bytes(s[..i]) == k;
    assert i > 0;
    assert s[..i][0] == s[0] && s[..i][1..] == s[1..][..i - 1];
  }

  lemma ZeroIsBoundary(s: string)
    ensures IsBoundary(s, 0) && IsBoundary(s, Bytes(s))
  {
    assert Bytes(s[..0]) == 0;
    assert s[..|s|] == s;
  }

  // ---------------------------------------------------------------------------
  // The cut. The loop is stated for any mark that needs no escaping, and for any
  // text around the reason: `base` is what that text costs.

  /** How much of the reason the loop tries to keep, before rounding down to a boundary. */
  function Aim(base: nat, reason: string, mark: string): nat
    requires base + Cost(reason) > MAX_BYTES
  {
    Max(0, Bytes(StripSuffix(reason, mark)) - (base + Cost(reason) - MAX_BYTES + Bytes(mark)))
  }

  /** A cut reason: a prefix of the original on a character boundary, then the mark. */
  ghost predicate IsCut(reason: string, original: string, mark: string) {
    exists keep: string :: keep <= StripSuffix(original, mark) && reason == keep + mark
  }

  /** A cut gives up no more text than the record is over the bound, but for part of one character. */
  ghost predicate LosesLittle(base: nat, reason: string, original: string, mark: string) {
    Bytes(reason) + 4 > Bytes(StripSuffix(original, mark)) - (base + Cost(original) - MAX_BYTES)
  }

  /** The nearest boundary below a position is less than one character away. */
  lemma NearBoundary(s: string, keep: nat, k: nat)
    requires keep <= k <= Bytes(s) && IsBoundary(s, keep) && forall j :: keep < j <= k ==> !IsBoundary(s, j)
    ensures k < keep + 4
  {
    var kept := PrefixAt(s, keep);
    if kept == s {
    } else {
      var n := |kept|;
      assert s[..n] == kept && s[..n + 1] == kept + [s[n]];
      BytesConcat(kept, [s[n]]);
      assert [s[n]][1..] == [];
      assert IsBoundary(s, keep + Width(s[n]));
    }
  }

  lemma StrippedCost(reason: string, mark: string)
    ensures Cost(StripSuffix(reason, mark)) <= Cost(reason) && Bytes(StripSuffix(reason, mark)) <= Bytes(reason)
  {
    if EndsWith(reason, mark) {
      assert reason == StripSuffix(reason, mark) + mark;
      CostConcat(StripSuffix(reason, mark), mark);
    }
  }

  /**
   One cut is enough: keeping at most the aim brings the record within the bound,
   unless the aim was nothing at all.
   */
  lemma CutFits(base: nat, reason: string, mark: string, keep: string)
    requires Cost(mark) == Bytes(mark) && base + Cost(reason) > MAX_BYTES
    requires keep <= StripSuffix(reason, mark) && Bytes(keep) <= Aim(base, reason, mark)
    ensures Aim(base, reason, mark) > 0 ==> base + Cost(keep + mark) <= MAX_BYTES
    ensures Aim(base, reason, mark) == 0 ==> keep == []
  {
    var u := StripSuffix(reason, mark);
    var rest := u[|keep|..];
    assert u == keep + rest;
    CostConcat(keep, rest);
    CostConcat(keep, mark);
    EscapingNeverShrinks(rest);
    StrippedCost(reason, mark);
  }

  /** A reason that is nothing but the mark, or nothing, costs no more than the mark. */
  lemma StrippedToNothing(reason: string, mark: string)
    requires StripSuffix(reason, mark) == []
    ensures Cost(reason) <= Cost(mark)
  {
    assert reason == [] || reason == mark;
  }

  /**
   The loop of `bounded`. It fails exactly when the text is too large and would be
   with nothing but the mark as its reason; otherwise the text fits, and the
   reason is the original or a character-boundary prefix of it and the mark. It
   never cuts twice.
   */
  method CutToFit(original: string, size: string -> nat, base: nat, mark: string) returns (ok: bool, reason: string, cuts: nat)
    requires (forall x :: size(x) == base + Cost(x)) && Cost(mark) == Bytes(mark) && mark != []
    ensures !ok <==> base + Cost(original) > MAX_BYTES && base + Cost(mark) > MAX_BYTES
    ensures ok ==> size(reason) <= MAX_BYTES
    ensures base + Cost(original) <= MAX_BYTES ==> reason == original
    ensures ok && base + Cost(original) > MAX_BYTES ==> IsCut(reason, original, mark) && LosesLittle(base, reason, original, mark)
    ensures cuts <= 1
  {
    reason := original;
    cuts := 0;
    while true
      invariant cuts == 0 ==> reason == original
      invariant cuts <= 1
      invariant cuts == 1 ==> base + Cost(original) > MAX_BYTES && IsCut(reason, original, mark) && LosesLittle(base, reason, original, mark)
      invariant cuts == 1 ==> base + Cost(reason) <= MAX_BYTES || reason == mark
      decreases 1 - cuts
    {
      var bytes := size(reason);
      if bytes <= MAX_BYTES {
        if cuts == 1 {
          CutCostsMore(reason, original, mark);
        }
        return true, reason, cuts;
      }
      var rest := StripSuffix(reason, mark);
      var keep := RoundDown(rest, Max(0, Bytes(rest) - (bytes - MAX_BYTES + Bytes(mark))));
      if keep == 0 && rest == [] {
        StrippedToNothing(reason, mark);
        return false, reason, cuts;
      }
      OnlyTheMark(mark);
      assert cuts == 0;
      var kept := PrefixAt(rest, keep);
      CutFits(base, reason, mark, kept);
      NearBoundary(rest, keep, Aim(base, reason, mark));
      BytesConcat(kept, mark);
      assert [] + mark == mark;
      reason := kept + mark;
      cuts := cuts + 1;
    }
  }

  lemma OnlyTheMark(mark: string)
    ensures StripSuffix(mark, mark) == [] && Bytes([]) == 0
  {
    assert mark[|mark| - |mark|..] == mark;
  }

  lemma CutCostsMore(reason: string, original: string, mark: string)
    requires IsCut(reason, original, mark)
    ensures Cost(mark) <= Cost(reason)
  {
    var keep: string :| keep <= StripSuffix(original, mark) && reason == keep + mark;
    CostConcat(keep, mark);
  }

  /** The inner loop: back to the nearest character boundary. */
  method RoundDown(s: string, k: nat) returns (keep: nat)
    ensures keep <= k && IsBoundary(s, keep) && forall j :: keep < j <= k ==> !IsBoundary(s, j)
  {
    keep := k;
    ZeroIsBoundary(s);
    while !IsBoundary(s, keep)
      invariant keep <= k && forall j :: keep < j <= k ==> !IsBoundary(s, j)
      decreases keep
    {
      keep := keep - 1;
    }
  }

  /**
   `bounded`: the JSON of the record, with its reason cut if it must be. What it
   publishes is never over the bound, so `read` never rejects it for its size.
   */
  method Bounded(record: Record) returns (body: Option<string>, final: Record)
    ensures body.None? <==> Size(record) > MAX_BYTES && Size(record.(reason := MARK)) > MAX_BYTES
    ensures body.Some? ==> body.value == Json(final) && Bytes(body.value) <= MAX_BYTES
    ensures final == record.(reason := final.reason)
    ensures Size(record) <= MAX_BYTES ==> final == record
    ensures body.Some? && Size(record) > MAX_BYTES ==>
              && IsCut(final.reason, record.reason, MARK)
              && Bytes(final.reason) + 4 > Bytes(StripSuffix(record.reason, MARK)) - (Size(record) - MAX_BYTES)
  {
    var size := (reason: string) => Size(record.(reason := reason));
    var base := Bytes(Head(record)) + 2;
    forall x ensures size(x) == base + Cost(x) {
      SizeWith(record, x);
    }
    MarkIsPlain();
    var ok, reason, cuts := CutToFit(record.reason, size, base, MARK);
    SizeWith(record, record.reason);
    SizeWith(record, MARK);
    assert record.(reason := record.reason) == record;
    final := record.(reason := reason);
    body := if ok then Some(Json(final)) else None;
  }

  lemma SizeWith(r: Record, reason: string)
    ensures Size(r.(reason := reason)) == Bytes(Head(r)) + 2 + Cost(reason)
  {
    SizeOf(r.(reason := reason));
    assert Leading(r.(reason := reason)) == Leading(r);
  }

  // ---------------------------------------------------------------------------
  // Invocation IDs

  predicate IsIdChar(c: char) {
    IsDigit(c) || 'a' <= c <= 'f'
  }

  /** `is_invocation_id`: 32 lowercase hexadecimal digits. */
  predicate IsInvocationId(id: string) {
    |id| == 32 && forall i | 0 <= i < |id| :: IsIdChar(id[i])
  }

  function FileName(id: string): string {
    id + ".json"
  }

  function PartialName(id: string): string {
    "." + id + ".json.partial"
  }

  /** An ID never names a path, and no two IDs share a file. */
  lemma IdsNameFiles(a: string, b: string)
    requires IsInvocationId(a) && IsInvocationId(b)
    ensures '/' !in FileName(a) && '/' !in PartialName(a)
    ensures (FileName(a) == FileName(b) <==> a == b) && FileName(a) != PartialName(b)
  {
    assert FileName(a)[..32] == a && FileName(b)[..32] == b;
    assert PartialName(b)[0] == '.' && IsIdChar(FileName(a)[0]);
  }
}
