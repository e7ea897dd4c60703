/**
 Which backup archives a retention policy removes (`fraisier-db` retention): an
 age rule, a floor counted in valid archives and a ceiling.
 */
module Retention {
  import opened Basics

  type Path = string

  /** The earliest instant the clock type can hold, in seconds. */
  const EARLIEST: int := -0x8000_0000_0000_0000

  datatype Candidate = Candidate(path: Path, takenAt: int)

  datatype Verdict = Valid | Invalid(reason: string) | Unverifiable(reason: string)

  datatype PolicyError = KeepLastZero | KeepLastBelowMinimum

  datatype Policy = Policy(retention: Option<nat>, keepMinimum: nat, keepLast: Option<nat>) {
    predicate Sound() {
      keepLast.Some? ==> keepLast.value > 0 && keepLast.value >= keepMinimum
    }

    /** Nothing is past the cutoff without an age rule, or when it reaches before the clock. */
    function Cutoff(now: int): Option<int> {
      if retention.Some? && now - retention.value >= EARLIEST then Some(now - retention.value) else None
    }
  }

  /** `Policy::new`: a floor above the ceiling is a mistake, not a compromise. */
  function NewPolicy(retention: Option<nat>, keepMinimum: nat, keepLast: Option<nat>): (r: Result<Policy, PolicyError>)
    ensures r.Ok? <==> Policy(retention, keepMinimum, keepLast).Sound()
    ensures r.Ok? ==> r.value == Policy(retention, keepMinimum, keepLast)
    ensures r == Err(KeepLastZero) <==> keepLast == Some(0)
  {
    if keepLast == Some(0) then Err(KeepLastZero)
    else if keepLast.Some? && keepLast.value < keepMinimum then Err(KeepLastBelowMinimum)
    else Ok(Policy(retention, keepMinimum, keepLast))
  }

  datatype Plan = Plan(
    remove: seq<Path>,
    keep: seq<Path>,
    exempt: seq<Path>,
    invalid: seq<(Path, string)>,
    unverifiable: seq<(Path, string)>,
    removedByCeiling: seq<Path>)
  {
    function Plus(that: Plan): Plan {
      Plan(remove + that.remove, keep + that.keep, exempt + that.exempt, invalid + that.invalid,
           unverifiable + that.unverifiable, removedByCeiling + that.removedByCeiling)
    }
  }

  const NOTHING := Plan([], [], [], [], [], [])

  // ---------------------------------------------------------------------------
  // Newest first

  ghost predicate NewestFirst(cs: seq<Candidate>) {
    forall i, j :: 0 <= i < j < |cs| ==> cs[i].takenAt >= cs[j].takenAt
  }

  /** Insert before everything at most as new, so equal instants keep their order. */
  function Insert(c: Candidate, cs: seq<Candidate>): (r: seq<Candidate>) {
    if cs == [] || c.takenAt >= cs[0].takenAt then [c] + cs else [cs[0]] + Insert(c, cs[1..])
  }

  /** The stable sort by descending instant. */
  function Sort(cs: seq<Candidate>): (r: seq<Candidate>) {
    if cs == [] then [] else Insert(cs[0], Sort(cs[1..]))
  }

  lemma {:induction false} InsertPermutes(c: Candidate, cs: seq<Candidate>)
    ensures multiset(Insert(c, cs)) == multiset{c} + multiset(cs)
  {
    if !(cs == [] || c.takenAt >= cs[0].takenAt) {
      InsertPermutes(c, cs[1..]);
      assert cs == [cs[0]] + cs[1..];
    }
  }

  lemma {:induction false} InsertOrders(c: Candidate, cs: seq<Candidate>)
    requires NewestFirst(cs)
    ensures NewestFirst(Insert(c, cs))
  {
    if !(cs == [] || c.takenAt >= cs[0].takenAt) {
      InsertOrders(c, cs[1..]);
      var rest := Insert(c, cs[1..]);
      forall j | 0 <= j < |rest| ensures cs[0].takenAt >= rest[j].takenAt {
        InsertPermutes(c, cs[1..]);
        assert rest[j] in multiset(rest);
        assert rest[j] == c || rest[j] in cs[1..];
      }
    }
  }

  /** The candidates taken at one instant, in order. */
  function TakenAt(cs: seq<Candidate>, instant: int): seq<Candidate> {
    if cs == [] then [] else (if cs[0].takenAt == instant then [cs[0]] else []) + TakenAt(cs[1..], instant)
  }

  lemma TakenAtCons(c: Candidate, cs: seq<Candidate>, instant: int)
    ensures TakenAt([c] + cs, instant) == (if c.takenAt == instant then [c] else []) + TakenAt(cs, instant)
  {
    assert ([c] + cs)[1..] == cs;
  }

  lemma {:induction false} InsertIsStable(c: Candidate, cs: seq<Candidate>, instant: int)
    requires NewestFirst(cs)
    ensures TakenAt(Insert(c, cs), instant) == (if c.takenAt == instant then [c] else []) + TakenAt(cs, instant)
  {
    if cs == [] || c.takenAt >= cs[0].takenAt {
      TakenAtCons(c, cs, instant);
    } else {
      InsertIsStable(c, cs[1..], instant);
      TakenAtCons(cs[0], Insert(c, cs[1..]), instant);
      if c.takenAt == instant {
        assert cs[0].takenAt != instant;
      }
    }
  }

  /** Archives taken at the same instant keep their order. */
  lemma {:induction false} SortIsStable(cs: seq<Candidate>, instant: int)
    ensures TakenAt(Sort(cs), instant) == TakenAt(cs, instant)
  {
    if cs != [] {
      SortIsStable(cs[1..], instant);
      SortIsNewestFirst(cs[1..]);
      InsertIsStable(cs[0], Sort(cs[1..]), instant);
    }
  }

  /** The pass runs over the candidates themselves, newest first. */
  lemma {:induction false} SortIsNewestFirst(cs: seq<Candidate>)
    ensures NewestFirst(Sort(cs)) && multiset(Sort(cs)) == multiset(cs)
  {
    if cs != [] {
      SortIsNewestFirst(cs[1..]);
      InsertOrders(cs[0], Sort(cs[1..]));
      InsertPermutes(cs[0], Sort(cs[1..]));
      assert cs == [cs[0]] + cs[1..];
    }
  }

  // ---------------------------------------------------------------------------
  // The plan

  /** What becomes of one archive once `slots` survivors are counted. */
  datatype Fate = Keeps | Exempts | ExemptsUnread(why: string) | DropsUnreadable(why: string) | Drops | DropsYoung

  function Judge(c: Candidate, policy: Policy, cutoff: Option<int>, verify: Candidate -> Verdict, slots: nat): Fate {
    var beyond := policy.keepLast.Some? && slots >= policy.keepLast.value;
    var within := cutoff.None? || c.takenAt >= cutoff.value;
    if within then if beyond then DropsYoung else Keeps
    else if beyond || slots >= policy.keepMinimum then Drops
    else
      match verify(c)
      case Valid => Exempts
      case Unverifiable(why) => ExemptsUnread(why)
      case Invalid(why) => DropsUnreadable(why)
  }

  predicate Survives(f: Fate) {
    f.Keeps? || f.Exempts? || f.ExemptsUnread?
  }

  function Entry(c: Candidate, f: Fate): Plan {
    match f
    case Keeps => NOTHING.(keep := [c.path])
    case Exempts => NOTHING.(exempt := [c.path])
    case ExemptsUnread(why) => NOTHING.(exempt := [c.path], unverifiable := [(c.path, why)])
    case DropsUnreadable(why) => NOTHING.(remove := [c.path], invalid := [(c.path, why)])
    case Drops => NOTHING.(remove := [c.path])
    case DropsYoung => NOTHING.(remove := [c.path], removedByCeiling := [c.path])
  }

  function Sweep(cs: seq<Candidate>, policy: Policy, cutoff: Option<int>, verify: Candidate -> Verdict, slots: nat): Plan {
    if cs == [] then NOTHING
    else
      var f := Judge(cs[0], policy, cutoff, verify, slots);
      Entry(cs[0], f).Plus(Sweep(cs[1..], policy, cutoff, verify, if Survives(f) then slots + 1 else slots))
  }

  lemma PlusAssociates(a: Plan, b: Plan, c: Plan)
    ensures a.Plus(b).Plus(c) == a.Plus(b.Plus(c)) && NOTHING.Plus(a) == a && a.Plus(NOTHING) == a
  {
    var l, r := a.Plus(b).Plus(c), a.Plus(b.Plus(c));
    assert l.remove == r.remove && l.keep == r.keep && l.exempt == r.exempt;
    assert l.invalid == r.invalid && l.unverifiable == r.unverifiable && l.removedByCeiling == r.removedByCeiling;
  }

  /** An archive that contests a floor slot: past the cutoff while the floor is not full. */
  predicate Contests(c: Candidate, policy: Policy, cutoff: Option<int>, slots: nat) {
    && cutoff.Some? && c.takenAt < cutoff.value && slots < policy.keepMinimum
    && !(policy.keepLast.Some? && slots >= policy.keepLast.value)
  }

  /** The archives the pass reads, in order. */
  function ReadBy(cs: seq<Candidate>, policy: Policy, cutoff: Option<int>, verify: Candidate -> Verdict, slots: nat): seq<Candidate> {
    if cs == [] then []
    else
      var f := Judge(cs[0], policy, cutoff, verify, slots);
      (if Contests(cs[0], policy, cutoff, slots) then [cs[0]] else [])
      + ReadBy(cs[1..], policy, cutoff, verify, if Survives(f) then slots + 1 else slots)
  }

  /** The body of the pass: where one archive goes, and whether it spends a slot. */
  method Place(plan: Plan, slots: nat, c: Candidate, policy: Policy, cutoff: Option<int>, verify: Candidate -> Verdict)
    returns (next: Plan, left: nat, read: bool)
    ensures var f := Judge(c, policy, cutoff, verify, slots);
            next == plan.Plus(Entry(c, f)) && left == if Survives(f) then slots + 1 else slots
    ensures read == Contests(c, policy, cutoff, slots)
  {
    read := false;
    var beyond := policy.keepLast.Some? && slots >= policy.keepLast.value;
    var within := cutoff.None? || c.takenAt >= cutoff.value;
    next := plan;
    if within && !beyond {
      next := next.(keep := next.keep + [c.path]);
      return next, slots + 1, read;
    }
    if !beyond && slots < policy.keepMinimum {
      read := true;
      match verify(c) {
        case Invalid(reason) =>
          next := next.(invalid := next.invalid + [(c.path, reason)]);
        case Valid =>
          next := next.(exempt := next.exempt + [c.path]);
          return next, slots + 1, read;
        case Unverifiable(reason) =>
          next := next.(unverifiable := next.unverifiable + [(c.path, reason)], exempt := next.exempt + [c.path]);
          return next, slots + 1, read;
      }
    }
    if within {
      next := next.(removedByCeiling := next.removedByCeiling + [c.path]);
    }
    next := next.(remove := next.remove + [c.path]);
    left := slots;
  }

  lemma SweepStep(cs: seq<Candidate>, i: nat, policy: Policy, cutoff: Option<int>, verify: Candidate -> Verdict, slots: nat, plan: Plan)
    requires i < |cs|
    ensures var f := Judge(cs[i], policy, cutoff, verify, slots);
            plan.Plus(Sweep(cs[i..], policy, cutoff, verify, slots))
            == plan.Plus(Entry(cs[i], f)).Plus(Sweep(cs[i + 1..], policy, cutoff, verify, if Survives(f) then slots + 1 else slots))
  {
    var f := Judge(cs[i], policy, cutoff, verify, slots);
    assert cs[i..][0] == cs[i] && cs[i..][1..] == cs[i + 1..];
    PlusAssociates(plan, Entry(cs[i], f), Sweep(cs[i + 1..], policy, cutoff, verify, if Survives(f) then slots + 1 else slots));
  }

  lemma ReadStep(cs: seq<Candidate>, i: nat, policy: Policy, cutoff: Option<int>, verify: Candidate -> Verdict, slots: nat, read: seq<Candidate>)
    requires i < |cs|
    ensures var left := if Survives(Judge(cs[i], policy, cutoff, verify, slots)) then slots + 1 else slots;
            read + ReadBy(cs[i..], policy, cutoff, verify, slots)
            == (if Contests(cs[i], policy, cutoff, slots) then read + [cs[i]] else read) + ReadBy(cs[i + 1..], policy, cutoff, verify, left)
  {
    assert cs[i..][0] == cs[i] && cs[i..][1..] == cs[i + 1..];
  }

  // ---------------------------------------------------------------------------
  // What every plan guarantees

  function Paths(cs: seq<Candidate>): (r: seq<Path>)
    ensures |r| == |cs| && forall i :: 0 <= i < |cs| ==> r[i] == cs[i].path
  {
    seq(|cs|, i requires 0 <= i < |cs| => cs[i].path)
  }

  /** Everything a plan decides about. */
  function Decided(p: Plan): multiset<Path> {
    multiset(p.remove) + multiset(p.keep) + multiset(p.exempt)
  }

  lemma DecidedPlus(a: Plan, b: Plan)
    ensures Decided(a.Plus(b)) == Decided(a) + Decided(b)
  {
  }

  lemma DecidedEntry(c: Candidate, f: Fate)
    ensures Decided(Entry(c, f)) == multiset{c.path}
  {
  }

  lemma PathsStep(cs: seq<Candidate>)
    requires cs != []
    ensures multiset(Paths(cs)) == multiset{cs[0].path} + multiset(Paths(cs[1..]))
  {
    assert Paths(cs) == [cs[0].path] + Paths(cs[1..]);
  }

  /** `remove`, `keep` and `exempt` partition the candidates. */
  lemma {:induction false} Partition(cs: seq<Candidate>, policy: Policy, cutoff: Option<int>, verify: Candidate -> Verdict, slots: nat)
    ensures Decided(Sweep(cs, policy, cutoff, verify, slots)) == multiset(Paths(cs))
  {
    if cs != [] {
      var f := Judge(cs[0], policy, cutoff, verify, slots);
      var next := if Survives(f) then slots + 1 else slots;
      calc {
        Decided(Sweep(cs, policy, cutoff, verify, slots));
        { DecidedPlus(Entry(cs[0], f), Sweep(cs[1..], policy, cutoff, verify, next)); }
        Decided(Entry(cs[0], f)) + Decided(Sweep(cs[1..], policy, cutoff, verify, next));
        { DecidedEntry(cs[0], f); Partition(cs[1..], policy, cutoff, verify, next); }
        multiset{cs[0].path} + multiset(Paths(cs[1..]));
        { PathsStep(cs); }
        multiset(Paths(cs));
      }
    }
  }

  /** How many of the first `k` archives survive. */
  function Survivors(cs: seq<Candidate>, k: nat, policy: Policy, cutoff: Option<int>, verify: Candidate -> Verdict, slots: nat): (n: nat)
    requires k <= |cs|
    ensures n <= k
  {
    if k == 0 then 0
    else
      var s := Survives(Judge(cs[0], policy, cutoff, verify, slots));
      (if s then 1 else 0) + Survivors(cs[1..], k - 1, policy, cutoff, verify, if s then slots + 1 else slots)
  }

  /** The fate of the `i`-th archive. */
  function FateOf(cs: seq<Candidate>, i: nat, policy: Policy, cutoff: Option<int>, verify: Candidate -> Verdict, slots: nat): Fate
    requires i < |cs|
  {
    Judge(cs[i], policy, cutoff, verify, slots + Survivors(cs, i, policy, cutoff, verify, slots))
  }

  lemma {:induction false} FateOfTail(cs: seq<Candidate>, i: nat, policy: Policy, cutoff: Option<int>, verify: Candidate -> Verdict, slots: nat)
    requires 0 < i < |cs|
    ensures var s := Survives(Judge(cs[0], policy, cutoff, verify, slots));
            FateOf(cs, i, policy, cutoff, verify, slots)
            == FateOf(cs[1..], i - 1, policy, cutoff, verify, if s then slots + 1 else slots)
  {
  }

  /** Some archive at `path` has a fate of the kind asked for. */
  ghost predicate HasFate(cs: seq<Candidate>, policy: Policy, cutoff: Option<int>, verify: Candidate -> Verdict, slots: nat, path: Path, survives: bool) {
    exists i :: 0 <= i < |cs| && cs[i].path == path && Survives(FateOf(cs, i, policy, cutoff, verify, slots)) == survives
  }

  lemma Lists(cs: seq<Candidate>, policy: Policy, cutoff: Option<int>, verify: Candidate -> Verdict, slots: nat, path: Path, survives: bool)
    requires cs != []
    ensures var first := Survives(Judge(cs[0], policy, cutoff, verify, slots));
            HasFate(cs, policy, cutoff, verify, slots, path, survives) <==>
              ((cs[0].path == path && first == survives)
               || HasFate(cs[1..], policy, cutoff, verify, if first then slots + 1 else slots, path, survives))
  {
    var first := Survives(Judge(cs[0], policy, cutoff, verify, slots));
    var next := if first then slots + 1 else slots;
    assert FateOf(cs, 0, policy, cutoff, verify, slots) == Judge(cs[0], policy, cutoff, verify, slots);
    if i :| 0 <= i < |cs| && cs[i].path == path && Survives(FateOf(cs, i, policy, cutoff, verify, slots)) == survives && i > 0 {
      FateOfTail(cs, i, policy, cutoff, verify, slots);
      assert cs[1..][i - 1].path == path;
    }
    if i :| 0 <= i < |cs[1..]| && cs[1..][i].path == path && Survives(FateOf(cs[1..], i, policy, cutoff, verify, next)) == survives {
      FateOfTail(cs, i + 1, policy, cutoff, verify, slots);
      assert cs[i + 1].path == path;
    }
  }

  /** The plan lists exactly the fates: a path survives when it is in `keep` or `exempt`. */
  lemma {:induction false} PlanListsFates(cs: seq<Candidate>, policy: Policy, cutoff: Option<int>, verify: Candidate -> Verdict, slots: nat, path: Path)
    ensures var p := Sweep(cs, policy, cutoff, verify, slots);
            && (path in p.remove <==> HasFate(cs, policy, cutoff, verify, slots, path, false))
            && (path in p.keep + p.exempt <==> HasFate(cs, policy, cutoff, verify, slots, path, true))
  {
    if cs != [] {
      var f := Judge(cs[0], policy, cutoff, verify, slots);
      var next := if Survives(f) then slots + 1 else slots;
      PlanListsFates(cs[1..], policy, cutoff, verify, next, path);
      assert FateOf(cs, 0, policy, cutoff, verify, slots) == f;
      Lists(cs, policy, cutoff, verify, slots, path, true);
      Lists(cs, policy, cutoff, verify, slots, path, false);
    }
  }

  /**
   The floor and the ceiling, archive by archive: a candidate that is removed
   without being unreadable has at least `keepMinimum` newer survivors, and a
   survivor has fewer than `keepLast`.
   */
  lemma FloorAndCeiling(cs: seq<Candidate>, i: nat, policy: Policy, cutoff: Option<int>, verify: Candidate -> Verdict)
    requires i < |cs| && policy.Sound()
    ensures var f := FateOf(cs, i, policy, cutoff, verify, 0);
            var newer := Survivors(cs, i, policy, cutoff, verify, 0);
            && (!Survives(f) && !f.DropsUnreadable? ==> newer >= policy.keepMinimum)
            && (f.DropsUnreadable? ==> verify(cs[i]).Invalid? && cutoff.Some? && cs[i].takenAt < cutoff.value)
            && (Survives(f) && policy.keepLast.Some? ==> newer < policy.keepLast.value)
  {
  }

  /** The floor that does not look: every archive counts as readable. */
  function Blind(c: Candidate): Verdict {
    Valid
  }

  /** Reading archives never spends more slots than not reading them. */
  lemma {:induction false} ReadingSpendsLess(cs: seq<Candidate>, k: nat, policy: Policy, cutoff: Option<int>, verify: Candidate -> Verdict, read: nat, blind: nat)
    requires k <= |cs| && read <= blind
    ensures read + Survivors(cs, k, policy, cutoff, verify, read) <= blind + Survivors(cs, k, policy, cutoff, Blind, blind)
  {
    if k > 0 {
      var r := Survives(Judge(cs[0], policy, cutoff, verify, read));
      var b := Survives(Judge(cs[0], policy, cutoff, Blind, blind));
      if r && !b && read == blind {
        assert false;
      }
      ReadingSpendsLess(cs[1..], k - 1, policy, cutoff, verify, if r then read + 1 else read, if b then blind + 1 else blind);
    }
  }

  /**
   The promise of the retention rules: compared with a floor that counts files
   instead of valid archives, whatever is newly removed is unreadable and already
   past the cutoff, so no valid archive is ever newly removed.
   */
  lemma NewlyRemovedIsUnreadableAndOld(cs: seq<Candidate>, i: nat, policy: Policy, cutoff: Option<int>, verify: Candidate -> Verdict)
    requires i < |cs|
    requires Survives(FateOf(cs, i, policy, cutoff, Blind, 0))
    requires !Survives(FateOf(cs, i, policy, cutoff, verify, 0))
    ensures verify(cs[i]).Invalid? && cutoff.Some? && cs[i].takenAt < cutoff.value
  {
    ReadingSpendsLess(cs, i, policy, cutoff, verify, 0, 0);
  }

  /** A fate without what the reader said about it. */
  function Plain(f: Fate): Fate {
    match f
    case ExemptsUnread(_) => Exempts
    case DropsUnreadable(_) => DropsUnreadable("")
    case _ => f
  }

  /**
   Two readers that call the same archives invalid decide alike, archive by archive.
   So an archive the reader cannot judge is retained exactly as a valid one, in any
   corpus, and a corpus with nothing invalid in it as one that is not read at all.
   */
  lemma {:induction false} UnreadableReaderChangesNothing(cs: seq<Candidate>, k: nat, policy: Policy, cutoff: Option<int>,
                                                          verify: Candidate -> Verdict, other: Candidate -> Verdict, slots: nat)
    requires k <= |cs| && forall c :: verify(c).Invalid? <==> other(c).Invalid?
    ensures Survivors(cs, k, policy, cutoff, verify, slots) == Survivors(cs, k, policy, cutoff, other, slots)
    ensures k < |cs| ==> Plain(FateOf(cs, k, policy, cutoff, verify, slots)) == Plain(FateOf(cs, k, policy, cutoff, other, slots))
  {
    if k > 0 {
      var s := Survives(Judge(cs[0], policy, cutoff, verify, slots));
      UnreadableReaderChangesNothing(cs[1..], k - 1, policy, cutoff, verify, other, if s then slots + 1 else slots);
    }
  }

  function Readable(cs: seq<Candidate>, verify: Candidate -> Verdict): (n: nat)
    ensures n <= |cs|
  {
    if cs == [] then 0 else (if verify(cs[0]).Invalid? then 0 else 1) + Readable(cs[1..], verify)
  }

  /** However old the corpus, as many archives survive as the floor asks for or as are readable, and no more than the ceiling allows. */
  lemma {:induction false} FloorHolds(cs: seq<Candidate>, policy: Policy, cutoff: Option<int>, verify: Candidate -> Verdict, slots: nat)
    requires policy.Sound()
    ensures slots + Survivors(cs, |cs|, policy, cutoff, verify, slots) >= Min(policy.keepMinimum, slots + Readable(cs, verify))
    ensures policy.keepLast.Some? && slots <= policy.keepLast.value ==>
              slots + Survivors(cs, |cs|, policy, cutoff, verify, slots) <= policy.keepLast.value
  {
    if cs != [] {
      var s := Survives(Judge(cs[0], policy, cutoff, verify, slots));
      FloorHolds(cs[1..], policy, cutoff, verify, if s then slots + 1 else slots);
    }
  }

  lemma {:induction false} SurvivorsGrow(cs: seq<Candidate>, i: nat, policy: Policy, cutoff: Option<int>, verify: Candidate -> Verdict, slots: nat)
    requires i <= |cs|
    ensures Survivors(cs, i, policy, cutoff, verify, slots) <= Survivors(cs, |cs|, policy, cutoff, verify, slots)
  {
    if i > 0 {
      var s := Survives(Judge(cs[0], policy, cutoff, verify, slots));
      SurvivorsGrow(cs[1..], i - 1, policy, cutoff, verify, if s then slots + 1 else slots);
    }
  }

  /**
   What every accepted policy keeps, for every corpus and reader: at least the floor
   survives, or every archive that is not unreadable does, and at most the ceiling.
   A policy is refused exactly when its ceiling is zero or below its floor.
   */
  lemma AcceptedPolicyIsKept(retention: Option<nat>, keepMinimum: nat, keepLast: Option<nat>, cs: seq<Candidate>, now: int, verify: Candidate -> Verdict)
    ensures var r := NewPolicy(retention, keepMinimum, keepLast);
            && (r.Err? <==> keepLast.Some? && (keepLast.value == 0 || keepLast.value < keepMinimum))
            && (r.Ok? ==>
                  var cutoff := r.value.Cutoff(now);
                  var n := Survivors(cs, |cs|, r.value, cutoff, verify, 0);
                  && (n >= keepMinimum
                      || forall i :: 0 <= i < |cs| && !verify(cs[i]).Invalid? ==> Survives(FateOf(cs, i, r.value, cutoff, verify, 0)))
                  && (keepLast.Some? ==> n <= keepLast.value))
  {
    var r := NewPolicy(retention, keepMinimum, keepLast);
    if r.Ok? {
      var cutoff := r.value.Cutoff(now);
      FloorHolds(cs, r.value, cutoff, verify, 0);
      forall i | 0 <= i < |cs|
        ensures Survivors(cs, i, r.value, cutoff, verify, 0) <= Survivors(cs, |cs|, r.value, cutoff, verify, 0)
      {
        SurvivorsGrow(cs, i, r.value, cutoff, verify, 0);
      }
    }
  }

  // ---------------------------------------------------------------------------
  // What is read

  /** An archive is read exactly when its verdict can matter: its fate is one that reading decides. */
  lemma ReadWhenItMatters(c: Candidate, policy: Policy, cutoff: Option<int>, verify: Candidate -> Verdict, slots: nat)
    requires policy.Sound()
    ensures var f := Judge(c, policy, cutoff, verify, slots);
            Contests(c, policy, cutoff, slots) <==> f.Exempts? || f.ExemptsUnread? || f.DropsUnreadable?
  {
  }

  /** Once the floor is full nothing is read. */
  lemma {:induction false} FullReadsNothing(cs: seq<Candidate>, policy: Policy, cutoff: Option<int>, verify: Candidate -> Verdict, slots: nat)
    requires slots >= policy.keepMinimum
    ensures ReadBy(cs, policy, cutoff, verify, slots) == []
  {
    if cs != [] {
      var s := Survives(Judge(cs[0], policy, cutoff, verify, slots));
      FullReadsNothing(cs[1..], policy, cutoff, verify, if s then slots + 1 else slots);
    }
  }

  predicate IsOld(c: Candidate, cutoff: Option<int>) {
    cutoff.Some? && c.takenAt < cutoff.value
  }

  /** How many archives are not past the cutoff. */
  function Young(cs: seq<Candidate>, cutoff: Option<int>): nat {
    if cs == [] then 0 else (if IsOld(cs[0], cutoff) then 0 else 1) + Young(cs[1..], cutoff)
  }

  ghost predicate AnyOld(cs: seq<Candidate>, cutoff: Option<int>) {
    exists i :: 0 <= i < |cs| && IsOld(cs[i], cutoff)
  }

  lemma {:induction false} AllOldNoneYoung(cs: seq<Candidate>, cutoff: Option<int>)
    requires forall i :: 0 <= i < |cs| ==> IsOld(cs[i], cutoff)
    ensures Young(cs, cutoff) == 0
  {
    if cs != [] {
      AllOldNoneYoung(cs[1..], cutoff);
    }
  }

  /**
   Nothing is read exactly when nothing is past the cutoff or the young archives
   alone fill the floor, a floor of zero included.
   */
  lemma {:induction false} NothingIsReadIff(cs: seq<Candidate>, policy: Policy, cutoff: Option<int>, verify: Candidate -> Verdict, slots: nat)
    requires policy.Sound() && NewestFirst(cs)
    ensures ReadBy(cs, policy, cutoff, verify, slots) == [] <==> !AnyOld(cs, cutoff) || slots + Young(cs, cutoff) >= policy.keepMinimum
  {
    if cs != [] {
      var rest := cs[1..];
      if slots >= policy.keepMinimum {
        FullReadsNothing(cs, policy, cutoff, verify, slots);
      } else if IsOld(cs[0], cutoff) {
        forall i | 0 <= i < |cs| ensures IsOld(cs[i], cutoff) {
          assert i > 0 ==> cs[0].takenAt >= cs[i].takenAt;
        }
        AllOldNoneYoung(cs, cutoff);
        assert Contests(cs[0], policy, cutoff, slots);
      } else {
        NothingIsReadIff(rest, policy, cutoff, verify, slots + 1);
        if i :| 0 <= i < |cs| && IsOld(cs[i], cutoff) {
          assert rest[i - 1] == cs[i];
        }
        if i :| 0 <= i < |rest| && IsOld(rest[i], cutoff) {
          assert cs[i + 1] == rest[i];
        }
      }
    }
  }

  /** The archive at `i` contests a floor slot when the pass comes to it. */
  predicate ContestsAt(cs: seq<Candidate>, i: nat, policy: Policy, cutoff: Option<int>, verify: Candidate -> Verdict, slots: nat)
    requires i < |cs|
  {
    Contests(cs[i], policy, cutoff, slots + Survivors(cs, i, policy, cutoff, verify, slots))
  }

  lemma ContestsTail(cs: seq<Candidate>, i: nat, policy: Policy, cutoff: Option<int>, verify: Candidate -> Verdict, slots: nat)
    requires 0 < i < |cs|
    ensures var s := Survives(Judge(cs[0], policy, cutoff, verify, slots));
            cs[i] == cs[1..][i - 1]
            && (ContestsAt(cs, i, policy, cutoff, verify, slots) <==> ContestsAt(cs[1..], i - 1, policy, cutoff, verify, if s then slots + 1 else slots))
  {
  }

  ghost predicate IsContested(cs: seq<Candidate>, policy: Policy, cutoff: Option<int>, verify: Candidate -> Verdict, slots: nat, c: Candidate) {
    exists i :: 0 <= i < |cs| && cs[i] == c && ContestsAt(cs, i, policy, cutoff, verify, slots)
  }

  lemma ContestedStep(cs: seq<Candidate>, policy: Policy, cutoff: Option<int>, verify: Candidate -> Verdict, slots: nat, c: Candidate)
    requires cs != []
    ensures var s := Survives(Judge(cs[0], policy, cutoff, verify, slots));
            IsContested(cs, policy, cutoff, verify, slots, c) <==>
              ((cs[0] == c && Contests(c, policy, cutoff, slots))
               || IsContested(cs[1..], policy, cutoff, verify, if s then slots + 1 else slots, c))
  {
    var next := if Survives(Judge(cs[0], policy, cutoff, verify, slots)) then slots + 1 else slots;
    assert Survivors(cs, 0, policy, cutoff, verify, slots) == 0;
    assert ContestsAt(cs, 0, policy, cutoff, verify, slots) <==> Contests(cs[0], policy, cutoff, slots);
    if i :| 0 <= i < |cs| && cs[i] == c && ContestsAt(cs, i, policy, cutoff, verify, slots) && i > 0 {
      ContestsTail(cs, i, policy, cutoff, verify, slots);
    }
    if i :| 0 <= i < |cs[1..]| && cs[1..][i] == c && ContestsAt(cs[1..], i, policy, cutoff, verify, next) {
      ContestsTail(cs, i + 1, policy, cutoff, verify, slots);
      assert cs[i + 1] == c;
    }
  }

  /** Exactly the archives that contest a floor slot when the pass comes to them are read. */
  lemma {:induction false} OnlyContestedAreRead(cs: seq<Candidate>, policy: Policy, cutoff: Option<int>, verify: Candidate -> Verdict, slots: nat, c: Candidate)
    ensures c in ReadBy(cs, policy, cutoff, verify, slots) <==> IsContested(cs, policy, cutoff, verify, slots, c)
  {
    if cs != [] {
      var next := if Survives(Judge(cs[0], policy, cutoff, verify, slots)) then slots + 1 else slots;
      OnlyContestedAreRead(cs[1..], policy, cutoff, verify, next, c);
      ContestedStep(cs, policy, cutoff, verify, slots, c);
    }
  }
}
