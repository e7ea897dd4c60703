/**
 The check runner: batches of at most `lanes` checks run together, and each batch
 is joined in the order of its checks. Within a batch, checks start and complete
 in any order.
 */
module CheckRunner {
  import opened Basics

  datatype Status = Passed | Failed | SpawnError

  datatype Check = Check(name: string, command: string)

  datatype Outcome = Outcome(name: string, status: Status, code: Option<int>, output: string)

  /** How a command ended; `None` if it could not be spawned. */
  datatype Exit = Exit(code: Option<int>, output: string)

  /** `run_one`. */
  function RunOne(check: Check, exit: Option<Exit>): Outcome {
    match exit
    case None => Outcome(check.name, SpawnError, None, [])
    case Some(e) => Outcome(check.name, if e.code == Some(0) then Passed else Failed, e.code, e.output)
  }

  /** The command ran and exited with zero. */
  predicate ExitsClean(exit: Option<Exit>) {
    exit.Some? && exit.value.code == Some(0)
  }

  /** An outcome tells what became of its check: its name, and how its command ended. */
  ghost predicate Tells(o: Outcome, check: Check, exit: Option<Exit>) {
    && o.name == check.name
    && (o.status == Passed <==> ExitsClean(exit))
    && (o.status == SpawnError <==> exit.None?)
    && (o.status == Failed <==> exit.Some? && exit.value.code != Some(0))
    && o.code == (if exit.Some? then exit.value.code else None)
    && o.output == (if exit.Some? then exit.value.output else "")
  }

  /** The outcomes tell of the checks, position by position. */
  ghost predicate TellAll(outcomes: seq<Outcome>, checks: seq<Check>, exits: nat -> Option<Exit>) {
    |outcomes| == |checks| && forall i :: 0 <= i < |checks| ==> Tells(outcomes[i], checks[i], exits(i))
  }

  // ---------------------------------------------------------------------------
  // The runner as a machine over starts, completions and joins

  datatype State = State(lo: nat, hi: nat, running: set<nat>, done: map<nat, Outcome>, outcomes: seq<Outcome>, log: seq<nat>)

  datatype Event = Start(check: nat) | Complete(check: nat, exit: Option<Exit>) | Join

  /** One run: its checks and the number of lanes. */
  datatype Job = Job(checks: seq<Check>, jobs: nat) {
    function Lanes(): nat {
      if jobs == 0 then 1 else jobs
    }

    function Init(): State {
      State(0, Min(Lanes(), |checks|), {}, map[], [], [])
    }

    predicate Enabled(s: State, e: Event) {
      match e
      case Start(i) => s.lo <= i < s.hi && i !in s.running && i !in s.done
      case Complete(i, _) => i in s.running && i < |checks|
      case Join => s.lo < s.hi && forall i | s.lo <= i < s.hi :: i in s.done
    }

    function Step(s: State, e: Event): State {
      if !Enabled(s, e) then s
      else
        match e
        case Start(i) => s.(running := s.running + {i}, log := s.log + [i])
        case Complete(i, exit) => s.(running := s.running - {i}, done := s.done[i := RunOne(checks[i], exit)])
        case Join =>
          s.(lo := s.hi, hi := Min(s.hi + Lanes(), |checks|),
             outcomes := s.outcomes + seq(s.hi - s.lo, k requires 0 <= k < s.hi - s.lo => s.done[s.lo + k]))
    }

    function Run(events: seq<Event>): State {
      if events == [] then Init() else Step(Run(events[..|events| - 1]), events[|events| - 1])
    }

    ghost predicate Inv(s: State) {
      && s.lo <= s.hi <= |checks| && s.hi - s.lo <= Lanes() && (s.lo < |checks| ==> s.lo < s.hi)
      && (forall i :: i in s.running ==> s.lo <= i < s.hi && i !in s.done)
      && (forall i :: i in s.done ==> i < s.hi)
      && (forall i :: 0 <= i < s.lo ==> i in s.done)
      && |s.outcomes| == s.lo && (forall i :: 0 <= i < s.lo ==> s.outcomes[i] == s.done[i])
      && (forall i, j :: 0 <= i < j < |s.log| ==> s.log[i] != s.log[j])
      && (forall i :: i in s.log <==> i in s.running || i in s.done)
    }

    lemma StartKeeps(s: State, i: nat)
      requires Inv(s) && Enabled(s, Start(i))
      ensures Inv(Step(s, Start(i)))
    {
      assert i !in s.log;
    }

    lemma CompleteKeeps(s: State, i: nat, exit: Option<Exit>)
      requires Inv(s) && Enabled(s, Complete(i, exit))
      ensures Inv(Step(s, Complete(i, exit)))
    {
    }

    lemma JoinKeeps(s: State)
      requires Inv(s) && Enabled(s, Join)
      ensures Inv(Step(s, Join))
    {
      var t := Step(s, Join);
      JoinedOutcomes(s);
      assert t.done == s.done && t.running == s.running && t.log == s.log;
      assert s.running == {};
    }

    lemma JoinedOutcomes(s: State)
      requires Inv(s) && Enabled(s, Join)
      ensures var t := Step(s, Join);
              |t.outcomes| == t.lo && forall i :: 0 <= i < t.lo ==> i in s.done && t.outcomes[i] == s.done[i]
    {
      var t := Step(s, Join);
      forall i | s.lo <= i < s.hi ensures t.outcomes[i] == s.done[i] {
        assert t.outcomes[i] == s.done[s.lo + (i - s.lo)];
      }
    }

    lemma StepKeeps(s: State, e: Event)
      requires Inv(s)
      ensures Inv(Step(s, e))
    {
      if Enabled(s, e) {
        match e
        case Start(i) => StartKeeps(s, i);
        case Complete(i, exit) => CompleteKeeps(s, i, exit);
        case Join => JoinKeeps(s);
      }
    }

    lemma {:induction false} RunKeeps(events: seq<Event>)
      ensures Inv(Run(events))
    {
      if events != [] {
        RunKeeps(events[..|events| - 1]);
        StepKeeps(Run(events[..|events| - 1]), events[|events| - 1]);
      }
    }

    /** At no moment of any run are more than `max(1, jobs)` checks running. */
    lemma BoundedConcurrency(events: seq<Event>)
      ensures |Run(events).running| <= if jobs == 0 then 1 else jobs
    {
      RunKeeps(events);
      var s := Run(events);
      IntervalSize(s.lo, s.hi, s.running);
    }

    ghost predicate Finished(s: State) {
      s.lo == |checks|
    }

    /** The exit each check reports, whenever it completes. */
    ghost predicate Reports(events: seq<Event>, exits: nat -> Option<Exit>) {
      forall k :: 0 <= k < |events| && events[k].Complete? ==> events[k].exit == exits(events[k].check)
    }

    lemma {:induction false} DoneAsReported(events: seq<Event>, exits: nat -> Option<Exit>)
      requires Reports(events, exits)
      ensures forall i :: i in Run(events).done ==> i < |checks| && Tells(Run(events).done[i], checks[i], exits(i))
    {
      if events != [] {
        DoneAsReported(events[..|events| - 1], exits);
      }
    }

    /**
     In every finished run each check was started exactly once, and outcome `i` is
     the outcome of check `i`: the report depends only on what each check did, not
     on when.
     */
    lemma FinishedRunIsPositional(events: seq<Event>, exits: nat -> Option<Exit>)
      requires Reports(events, exits) && Finished(Run(events))
      ensures multiset(Run(events).log) == multiset(Indices(|checks|)) && Run(events).running == {}
      ensures TellAll(Run(events).outcomes, checks, exits)
      ensures IsReport(Run(events).outcomes, checks, exits)
    {
      RunKeeps(events);
      DoneAsReported(events, exits);
      var s := Run(events);
      forall i: nat ensures multiset(s.log)[i] == multiset(Indices(|checks|))[i] {
        assert i in s.log <==> i in s.running || i in s.done;
        assert i < |checks| ==> Indices(|checks|)[i] == i;
        CountOnce(s.log, i);
        CountOnce(Indices(|checks|), i);
      }
      ReportTells(s.outcomes, checks, exits);
    }

    /** An unfinished run always has a next step, and there are at most `3n` steps to take. */
    lemma NeverStuck(events: seq<Event>)
      ensures var s := Run(events);
              && (!Finished(s) ==> exists e :: Enabled(s, e))
              && (forall e :: Enabled(s, e) ==> Progress(Step(s, e)) > Progress(s))
              && Progress(s) <= 3 * |checks|
    {
      RunKeeps(events);
      var s := Run(events);
      IntervalSize(0, |checks|, s.done.Keys);
      LogSize(s.log, |checks|);
      if !Finished(s) {
        if i :| s.lo <= i < s.hi && i !in s.done {
          assert Enabled(s, if i in s.running then Complete(i, None) else Start(i));
        } else {
          assert Enabled(s, Join);
        }
      }
      forall e | Enabled(s, e) ensures Progress(Step(s, e)) > Progress(s) {
        if e.Complete? {
          assert Step(s, e).done.Keys == s.done.Keys + {e.check};
        }
      }
    }
  }

  function Progress(s: State): nat {
    |s.log| + |s.done.Keys| + s.lo
  }

  function Indices(n: nat): (r: seq<nat>)
    ensures |r| == n && forall i :: 0 <= i < n ==> r[i] == i
  {
    seq(n, i => i)
  }

  lemma {:induction false} IntervalSize(lo: nat, hi: nat, s: set<nat>)
    requires lo <= hi && forall i :: i in s ==> lo <= i < hi
    ensures |s| <= hi - lo
    decreases hi - lo
  {
    if lo == hi {
      assert s == {};
    } else {
      IntervalSize(lo + 1, hi, s - {lo});
    }
  }

  lemma {:induction false} CountOnce(s: seq<nat>, x: nat)
    requires forall i, j :: 0 <= i < j < |s| ==> s[i] != s[j]
    ensures multiset(s)[x] == if x in s then 1 else 0
  {
    if s != [] {
      CountOnce(s[1..], x);
      assert s == [s[0]] + s[1..];
    }
  }

  lemma LogSize(log: seq<nat>, n: nat)
    requires (forall i, j :: 0 <= i < j < |log| ==> log[i] != log[j]) && forall x :: x in log ==> x < n
    ensures |log| <= n
  {
    var s := set x | x in log;
    DistinctSize(log, s);
    IntervalSize(0, n, s);
  }

  lemma {:induction false} DistinctSize(log: seq<nat>, s: set<nat>)
    requires (forall i, j :: 0 <= i < j < |log| ==> log[i] != log[j]) && s == set x | x in log
    ensures |s| == |log|
  {
    if log != [] {
      var rest := set x | x in log[1..];
      DistinctSize(log[1..], rest);
      assert log == [log[0]] + log[1..];
      assert s == rest + {log[0]} && log[0] !in rest;
    }
  }

  // ---------------------------------------------------------------------------
  // The loop

  /** `join_all` over one batch: the outcomes in the order of its checks. */
  function JoinAll(batch: seq<Check>, base: nat, exits: nat -> Option<Exit>): (r: seq<Outcome>)
    ensures |r| == |batch| && forall k :: 0 <= k < |batch| ==> r[k] == RunOne(batch[k], exits(base + k))
  {
    seq(|batch|, k requires 0 <= k < |batch| => RunOne(batch[k], exits(base + k)))
  }

  /** `run`, with what its outcomes tell. */
  method RunChecks(checks: seq<Check>, jobs: nat, exits: nat -> Option<Exit>) returns (outcomes: seq<Outcome>)
    ensures TellAll(outcomes, checks, exits)
    ensures IsReport(outcomes, checks, exits)
  {
    outcomes := RunBatches(checks, jobs, exits);
    JoinsTell(checks, exits);
    ReportTells(outcomes, checks, exits);
  }

  lemma JoinsTell(checks: seq<Check>, exits: nat -> Option<Exit>)
    ensures TellAll(JoinAll(checks, 0, exits), checks, exits)
  {
    var outcomes := JoinAll(checks, 0, exits);
    forall i | 0 <= i < |checks| ensures Tells(outcomes[i], checks[i], exits(i)) {
      assert outcomes[i] == RunOne(checks[i], exits(0 + i));
    }
  }

  /** The loop: the batches in order, each joined positionally. */
  method RunBatches(checks: seq<Check>, jobs: nat, exits: nat -> Option<Exit>) returns (outcomes: seq<Outcome>)
    ensures outcomes == JoinAll(checks, 0, exits)
  {
    var batches := Chunks(checks, Max(jobs, 1));
    outcomes := [];
    ghost var seen: seq<Check> := [];
    for b := 0 to |batches|
      invariant seen + Concat(batches[b..]) == checks
      invariant outcomes == JoinAll(seen, 0, exits)
    {
      var batch := batches[b];
      assert batches[b..][1..] == batches[b + 1..];
      assert (seen + batch) + Concat(batches[b + 1..]) == seen + (batch + Concat(batches[b + 1..]));
      JoinsExtend(seen, batch, exits);
      outcomes := outcomes + JoinAll(batch, |outcomes|, exits);
      seen := seen + batch;
    }
  }

  lemma JoinsExtend(seen: seq<Check>, batch: seq<Check>, exits: nat -> Option<Exit>)
    ensures JoinAll(seen, 0, exits) + JoinAll(batch, |seen|, exits) == JoinAll(seen + batch, 0, exits)
  {
  }

  // ---------------------------------------------------------------------------
  // The report

  predicate IsOk(outcomes: seq<Outcome>) {
    forall i | 0 <= i < |outcomes| :: outcomes[i].status == Passed
  }

  function Failures(outcomes: seq<Outcome>): seq<Outcome> {
    if outcomes == [] then []
    else (if outcomes[0].status == Passed then [] else [outcomes[0]]) + Failures(outcomes[1..])
  }

  function FailedCount(outcomes: seq<Outcome>): nat {
    |Failures(outcomes)|
  }

  function FailedNames(outcomes: seq<Outcome>): (r: seq<string>)
    ensures |r| == FailedCount(outcomes)
  {
    seq(FailedCount(outcomes), i requires 0 <= i < FailedCount(outcomes) => Failures(outcomes)[i].name)
  }

  /**
   The report of a run, told from how the commands ended: ok exactly when every one
   exited with zero, and otherwise naming, in order, exactly the other checks.
   */
  ghost predicate IsReport(outcomes: seq<Outcome>, checks: seq<Check>, exits: nat -> Option<Exit>) {
    && (IsOk(outcomes) <==> forall i :: 0 <= i < |checks| ==> ExitsClean(exits(i)))
    && exists at :: AreUnclean(at, |checks|, exits) && NamedAt(FailedNames(outcomes), checks, at)
  }

  /** Strictly increasing positions, of exactly the checks that did not exit with zero. */
  ghost predicate AreUnclean(at: seq<nat>, n: nat, exits: nat -> Option<Exit>) {
    && (forall k, m :: 0 <= k < m < |at| ==> at[k] < at[m])
    && (forall k :: 0 <= k < |at| ==> at[k] < n)
    && (forall i :: 0 <= i < n ==> (!ExitsClean(exits(i)) <==> i in at))
  }

  ghost predicate NamedAt(names: seq<string>, checks: seq<Check>, at: seq<nat>) {
    |names| == |at| && forall k :: 0 <= k < |at| ==> at[k] < |checks| && names[k] == checks[at[k]].name
  }

  lemma ReportTells(outcomes: seq<Outcome>, checks: seq<Check>, exits: nat -> Option<Exit>)
    requires TellAll(outcomes, checks, exits)
    ensures IsReport(outcomes, checks, exits)
  {
    ReportIsExact(outcomes);
    var at :| ArePositions(at, outcomes) && NamesOf(FailedNames(outcomes), outcomes, at);
    PositionsTell(outcomes, checks, exits, at);
    NamesTell(FailedNames(outcomes), outcomes, checks, exits, at);
  }

  lemma PositionsTell(outcomes: seq<Outcome>, checks: seq<Check>, exits: nat -> Option<Exit>, at: seq<nat>)
    requires TellAll(outcomes, checks, exits) && ArePositions(at, outcomes)
    ensures AreUnclean(at, |checks|, exits)
    ensures IsOk(outcomes) <==> forall i :: 0 <= i < |checks| ==> ExitsClean(exits(i))
  {
    forall i | 0 <= i < |checks| ensures outcomes[i].status == Passed <==> ExitsClean(exits(i)) {
      assert Tells(outcomes[i], checks[i], exits(i));
    }
  }

  lemma NamesTell(names: seq<string>, outcomes: seq<Outcome>, checks: seq<Check>, exits: nat -> Option<Exit>, at: seq<nat>)
    requires TellAll(outcomes, checks, exits) && NamesOf(names, outcomes, at)
    ensures NamedAt(names, checks, at)
  {
    forall k | 0 <= k < |at| ensures names[k] == checks[at[k]].name {
      assert Tells(outcomes[at[k]], checks[at[k]], exits(at[k]));
    }
  }

  ghost predicate NamesOf(names: seq<string>, outcomes: seq<Outcome>, at: seq<nat>) {
    |names| == |at| && forall k :: 0 <= k < |at| ==> at[k] < |outcomes| && names[k] == outcomes[at[k]].name
  }

  /** Strictly increasing positions, holding exactly the outcomes that did not pass. */
  ghost predicate ArePositions(at: seq<nat>, outcomes: seq<Outcome>) {
    && (forall k, m :: 0 <= k < m < |at| ==> at[k] < at[m])
    && (forall k :: 0 <= k < |at| ==> at[k] < |outcomes|)
    && (forall i :: 0 <= i < |outcomes| ==> (outcomes[i].status != Passed <==> i in at))
  }

  lemma {:induction false} FailurePositions(outcomes: seq<Outcome>) returns (at: seq<nat>)
    ensures ArePositions(at, outcomes) && |at| == |Failures(outcomes)|
    ensures forall k :: 0 <= k < |at| ==> Failures(outcomes)[k] == outcomes[at[k]]
  {
    if outcomes == [] {
      at := [];
    } else {
      var rest := FailurePositions(outcomes[1..]);
      var shifted := seq(|rest|, k requires 0 <= k < |rest| => rest[k] + 1);
      var first := if outcomes[0].status == Passed then [] else [0];
      at := first + shifted;
      PositionsShift(outcomes, rest, shifted, first);
      FailuresShift(outcomes, Failures(outcomes[1..]), rest, shifted, first);
    }
  }

  lemma FailuresShift(outcomes: seq<Outcome>, fs: seq<Outcome>, rest: seq<nat>, shifted: seq<nat>, first: seq<nat>)
    requires outcomes != [] && |fs| == |rest| == |shifted|
    requires forall k :: 0 <= k < |rest| ==> rest[k] + 1 < |outcomes| && shifted[k] == rest[k] + 1 && fs[k] == outcomes[1..][rest[k]]
    requires first == if outcomes[0].status == Passed then [] else [0]
    ensures var all := (if outcomes[0].status == Passed then [] else [outcomes[0]]) + fs;
            var at := first + shifted;
            |all| == |at| && forall k :: 0 <= k < |at| ==> at[k] < |outcomes| && all[k] == outcomes[at[k]]
  {
  }

  lemma PositionsShift(outcomes: seq<Outcome>, rest: seq<nat>, shifted: seq<nat>, first: seq<nat>)
    requires outcomes != [] && ArePositions(rest, outcomes[1..])
    requires |shifted| == |rest| && forall k :: 0 <= k < |rest| ==> shifted[k] == rest[k] + 1
    requires first == if outcomes[0].status == Passed then [] else [0]
    ensures ArePositions(first + shifted, outcomes)
  {
    var at := first + shifted;
    forall i | 0 <= i < |outcomes| ensures outcomes[i].status != Passed <==> i in at {
      if i > 0 {
        assert outcomes[i] == outcomes[1..][i - 1];
        if i - 1 in rest {
          var k :| 0 <= k < |rest| && rest[k] == i - 1;
          assert shifted[k] == i;
        }
        assert i in at ==> i in shifted;
      } else {
        assert 0 !in shifted;
      }
    }
  }

  /**
   A run is ok exactly when nothing failed, and the failed names are, in order,
   the names at exactly the failing positions.
   */
  lemma ReportIsExact(outcomes: seq<Outcome>)
    ensures IsOk(outcomes) <==> FailedCount(outcomes) == 0
    ensures exists at :: ArePositions(at, outcomes) && NamesOf(FailedNames(outcomes), outcomes, at)
  {
    var at := FailurePositions(outcomes);
    assert NamesOf(FailedNames(outcomes), outcomes, at);
    assert FailedCount(outcomes) == 0 ==> at == [];
    if i :| 0 <= i < |outcomes| && outcomes[i].status != Passed {
      assert i in at;
    }
    assert at != [] ==> outcomes[at[0]].status != Passed;
  }
}
