/**
 Every ending of a deploy, the partial ones and those cut short by the store included:
 which hosts it can have touched, and what it can have left of them.
 */
module Endings {
  import opened Basics
  import opened Saga
  import opened Rollout

  // ---------------------------------------------------------------------------
  // Any saga

  /**
   `up(k, s)` is a state after the first `k` steps, `down(f, k, s)` one in which step
   `f` failed and the steps from `k` on were compensated, whether or not each of the
   compensations reported success.
   */
  ghost predicate Tracked<R(!new)>(steps: seq<Step<R>>, up: (nat, R) -> bool, down: (nat, nat, R) -> bool) {
    forall k, s :: 0 <= k < |steps| ==> ForwardTracked(steps[k], k, up, down, s) && CompensateTracked(steps[k], k, down, s)
  }

  ghost predicate ForwardTracked<R>(step: Step<R>, k: nat, up: (nat, R) -> bool, down: (nat, nat, R) -> bool, s: R) {
    up(k, s) ==> var e := step.forward(s); if e.Done? then up(k + 1, e.state) else down(k, k, e.state)
  }

  ghost predicate CompensateTracked<R>(step: Step<R>, k: nat, down: (nat, nat, R) -> bool, s: R) {
    forall f: nat :: k < f && down(f, k + 1, s) ==> down(f, k, step.compensate(s).state)
  }

  lemma {:induction false} RollbackTracked<R(!new)>(steps: seq<Step<R>>, up: (nat, R) -> bool, down: (nat, nat, R) -> bool,
                                                    f: nat, k: nat, from: Lifecycle, failed: string, why: string, run: Run<R>)
    requires Tracked(steps, up, down) && k <= f < |steps| && down(f, k, run.state)
    ensures exists j: nat :: j <= f && down(f, j, Rollback(steps, k, from, failed, why, run).0.state)
    decreases k
  {
    if k > 0 {
      var to := Compensating(steps[k - 1].name);
      var (store, err) := Record(run.store, from, to);
      if err.None? {
        assert CompensateTracked(steps[k - 1], k - 1, down, run.state);
        match steps[k - 1].compensate(run.state) {
          case Done(state) =>
            var next := Run(state, store, run.actions + [Compensate(k - 1, true)]);
            RollbackTracked(steps, up, down, f, k - 1, to, failed, why, next);
            assert Rollback(steps, k, from, failed, why, run) == Rollback(steps, k - 1, to, failed, why, next);
          case Failed(state, message) =>
            assert Rollback(steps, k, from, failed, why, run).0.state == state;
            assert down(f, k - 1, state);
        }
      } else {
        assert Rollback(steps, k, from, failed, why, run).0.state == run.state;
      }
    } else {
      assert Rollback(steps, k, from, failed, why, run).0.state == run.state;
    }
  }

  /** A state some run can end in. */
  ghost predicate EndsIn<R>(steps: seq<Step<R>>, up: (nat, R) -> bool, down: (nat, nat, R) -> bool, failed: Option<nat>, s: R) {
    || (exists j: nat :: j <= failed.GetOr(|steps|) && up(j, s))
    || (failed.Some? && exists j: nat :: j <= failed.value && down(failed.value, j, s))
  }

  lemma {:induction false} ExecuteTracked<R(!new)>(steps: seq<Step<R>>, up: (nat, R) -> bool, down: (nat, nat, R) -> bool,
                                                   k: nat, from: Lifecycle, run: Run<R>)
    requires Tracked(steps, up, down) && k <= |steps| && up(k, run.state)
    ensures EndsIn(steps, up, down, FailsAt(steps, k, run.state), Execute(steps, k, from, run).0.state)
    decreases |steps| - k
  {
    if k == |steps| {
      assert Execute(steps, k, from, run).0.state == run.state;
    } else {
      var to := Running(steps[k].name);
      var (store, err) := Record(run.store, from, to);
      if err.Some? {
        assert Execute(steps, k, from, run).0.state == run.state;
        assert k <= FailsAt(steps, k, run.state).GetOr(|steps|);
      } else {
        assert ForwardTracked(steps[k], k, up, down, run.state);
        match steps[k].forward(run.state) {
          case Done(state) =>
            ExecuteTracked(steps, up, down, k + 1, to, Run(state, store, run.actions + [Forward(k, true)]));
          case Failed(state, message) =>
            RollbackTracked(steps, up, down, k, k, to, steps[k].name, message, Run(state, store, run.actions + [Forward(k, false)]));
        }
      }
    }
  }

  // ---------------------------------------------------------------------------
  // A deploy

  /** How far a host gets when its batch advances, and what a restore at once or later makes of that. */
  function Reached(plan: Plan, s0: Deploy, h: Host): (HostState, Progress, bool)
    requires h in s0.hosts
  {
    Advance(s0.hosts[h], Lookup(plan.stage, h), Lookup(plan.advance, h).GetOr(STEADY))
  }

  function Undone(plan: Plan, s0: Deploy, h: Host, faults: map<Host, RestoreFaults>): HostState
    requires h in s0.hosts
  {
    Restore(Reached(plan, s0, h).0, Reached(plan, s0, h).1, Lookup(plan.ledger, h), Lookup(faults, h).GetOr(CALM)).0
  }

  /** Host `h` once step `f` has failed and the steps from `k` on were compensated. */
  ghost predicate HostStops(plan: Plan, s0: Deploy, f: nat, k: nat, s: Deploy, h: Host)
    requires h in s0.hosts && h in s.hosts
  {
    if h in Touched(plan, k) then
      s.hosts[h] == Reached(plan, s0, h).0 && h in s.progress && s.progress[h] == Reached(plan, s0, h).1
    else if h in Touched(plan, f + 1) then
      s.hosts[h] == Undone(plan, s0, h, plan.undoNow) || s.hosts[h] == Undone(plan, s0, h, plan.undoLater)
    else s.hosts[h] == s0.hosts[h]
  }

  ghost predicate DbStops(plan: Plan, s0: Deploy, f: nat, s: Deploy) {
    (s.db == s0.db || s.db == Landed(plan, s0.db)) && (f >= 3 ==> s.previous == s0.db)
  }

  ghost predicate Stops(plan: Plan, s0: Deploy, f: nat, k: nat, s: Deploy) {
    && k <= f < |Steps(plan)| && s.hosts.Keys == s0.hosts.Keys && DbStops(plan, s0, f, s)
    && forall h :: h in s0.hosts ==> HostStops(plan, s0, f, k, s, h)
  }

  /** A step that failed without moving a host. */
  lemma PlainFailure(plan: Plan, s0: Deploy, k: nat, s: Deploy, t: Deploy)
    requires Up(plan, s0, k, s) && k < |Steps(plan)| && t.hosts == s.hosts && t.progress == s.progress
    requires DoneBatches(plan, k) == DoneBatches(plan, k + 1) && DbStops(plan, s0, k, t)
    ensures Stops(plan, s0, k, k, t)
  {
    forall h | h in s0.hosts ensures HostStops(plan, s0, k, k, t, h) {
      assert HostFits(plan, s0, k, s, h);
    }
  }

  lemma BatchFailure(plan: Plan, s0: Deploy, i: nat, s: Deploy)
    requires Ready(plan, s0) && i < |Batches(plan)| && Up(plan, s0, 3 + i, s)
    requires RunBatch(plan, Batches(plan)[i], s).Failed?
    ensures Stops(plan, s0, 3 + i, 3 + i, RunBatch(plan, Batches(plan)[i], s).state)
  {
    var t := RunBatch(plan, Batches(plan)[i], s).state;
    BatchLeavesDb(plan, Batches(plan)[i], s);
    AllStop(plan, s0, i, s, t);
  }

  lemma BatchLeavesDb(plan: Plan, batch: seq<Host>, s: Deploy)
    ensures var t := RunBatch(plan, batch, s).state; t.hosts.Keys == s.hosts.Keys && t.db == s.db && t.previous == s.previous
  {
  }

  lemma AllStop(plan: Plan, s0: Deploy, i: nat, s: Deploy, t: Deploy)
    requires Ready(plan, s0) && i < |Batches(plan)| && Up(plan, s0, 3 + i, s)
    requires RunBatch(plan, Batches(plan)[i], s).Failed? && t == RunBatch(plan, Batches(plan)[i], s).state
    requires t.hosts.Keys == s.hosts.Keys && t.db == s.db && t.previous == s.previous
    ensures Stops(plan, s0, 3 + i, 3 + i, t)
  {
    forall h | h in s0.hosts ensures HostStops(plan, s0, 3 + i, 3 + i, t, h) {
      BatchFailureOf(plan, s0, i, s, t, h);
    }
  }

  lemma BatchFailureOf(plan: Plan, s0: Deploy, i: nat, s: Deploy, t: Deploy, h: Host)
    requires Ready(plan, s0) && i < |Batches(plan)| && Up(plan, s0, 3 + i, s) && h in s0.hosts
    requires RunBatch(plan, Batches(plan)[i], s).Failed? && t == RunBatch(plan, Batches(plan)[i], s).state
    ensures h in t.hosts && HostStops(plan, s0, 3 + i, 3 + i, t, h)
  {
    var batch := Batches(plan)[i];
    assert HostFits(plan, s0, 3 + i, s, h);
    if h in batch {
      BatchUntouched(plan, s0, i, s, h);
      RestoredAtOnce(plan, batch, s, t, h);
    } else {
      NotInBatch(plan, i, h);
      LeftAlone(plan, batch, s, t, h);
    }
  }

  lemma RestoredAtOnce(plan: Plan, batch: seq<Host>, s: Deploy, t: Deploy, h: Host)
    requires h in s.hosts && h in batch && RunBatch(plan, batch, s).Failed? && t == RunBatch(plan, batch, s).state
    ensures var a := AdvanceOf(plan, s, h);
            h in t.hosts && t.hosts[h] == Restore(a.0, a.1, Lookup(plan.ledger, h), Lookup(plan.undoNow, h).GetOr(CALM)).0
  {
    var moved := Advanced(plan, batch, s);
    assert moved.hosts[h] == AdvanceOf(plan, s, h).0 && moved.progress[h] == AdvanceOf(plan, s, h).1;
  }

  lemma LeftAlone(plan: Plan, batch: seq<Host>, s: Deploy, t: Deploy, h: Host)
    requires h in s.hosts && h !in batch && RunBatch(plan, batch, s).Failed? && t == RunBatch(plan, batch, s).state
    ensures h in t.hosts && t.hosts[h] == s.hosts[h] && (h in s.progress ==> h in t.progress && t.progress[h] == s.progress[h])
  {
  }

  /** What each step does. */
  function ForwardOf(plan: Plan, k: nat, s: Deploy): Effect<Deploy>
    requires k < |Steps(plan)|
  {
    if k == 0 then Check(plan.preflight, s)
    else if k == 1 then Fetch(plan, s)
    else if k == 2 then Migrate(plan, s)
    else if k < |Steps(plan)| - 1 then RunBatch(plan, Batches(plan)[k - 3], s)
    else Check(plan.verify, s)
  }

  function BackwardOf(plan: Plan, k: nat, s: Deploy): Effect<Deploy>
    requires k < |Steps(plan)|
  {
    if k == 2 then UndoMigrate(plan, s)
    else if 3 <= k < |Steps(plan)| - 1 then UndoBatch(plan, Batches(plan)[k - 3], s)
    else Nothing(s)
  }

  lemma StepIs(plan: Plan, k: nat, s: Deploy)
    requires k < |Steps(plan)|
    ensures Steps(plan)[k].forward(s) == ForwardOf(plan, k, s) && Steps(plan)[k].compensate(s) == BackwardOf(plan, k, s)
  {
    if 3 <= k < |Steps(plan)| - 1 {
      assert Steps(plan)[k] == BatchStep(plan, k - 3);
    }
  }

  lemma ForwardStops(plan: Plan, s0: Deploy, k: nat, s: Deploy)
    requires Ready(plan, s0) && k < |Steps(plan)| && Up(plan, s0, k, s) && ForwardOf(plan, k, s).Failed?
    ensures Stops(plan, s0, k, k, ForwardOf(plan, k, s).state)
  {
    if 3 <= k < |Steps(plan)| - 1 {
      BatchFailure(plan, s0, k - 3, s);
    } else {
      PlainForward(plan, s0, k, s, ForwardOf(plan, k, s).state);
      PlainFailure(plan, s0, k, s, ForwardOf(plan, k, s).state);
    }
  }

  lemma PlainForward(plan: Plan, s0: Deploy, k: nat, s: Deploy, t: Deploy)
    requires k < |Steps(plan)| && Up(plan, s0, k, s) && !(3 <= k < |Steps(plan)| - 1)
    requires ForwardOf(plan, k, s).Failed? && t == ForwardOf(plan, k, s).state
    ensures t.hosts == s.hosts && t.progress == s.progress && DoneBatches(plan, k) == DoneBatches(plan, k + 1) && DbStops(plan, s0, k, t)
  {
    UpDb(plan, s0, k, s);
    if k == 2 {
      MigrateFails(plan, s0, s);
    } else {
      assert t == s;
    }
  }

  lemma UpDb(plan: Plan, s0: Deploy, k: nat, s: Deploy)
    requires Up(plan, s0, k, s)
    ensures DbStops(plan, s0, k, s) && (k < 3 ==> s.db == s0.db)
  {
  }

  lemma MigrateFails(plan: Plan, s0: Deploy, s: Deploy)
    requires s.db == s0.db && Migrate(plan, s).Failed?
    ensures var t := Migrate(plan, s).state; t.hosts == s.hosts && t.progress == s.progress && DbStops(plan, s0, 2, t)
  {
  }

  lemma BatchUndone(plan: Plan, s0: Deploy, f: nat, i: nat, s: Deploy, h: Host)
    requires Ready(plan, s0) && i < |Batches(plan)| && Stops(plan, s0, f, 4 + i, s) && h in s0.hosts
    ensures var t := UndoBatch(plan, Batches(plan)[i], s).state; h in t.hosts && HostStops(plan, s0, f, 3 + i, t, h)
  {
    var batch := Batches(plan)[i];
    assert HostStops(plan, s0, f, 4 + i, s, h);
    UndoneHost(plan, batch, s, h);
    if h in batch {
      BatchIsNew(plan, i, h);
      EarlierIsTouched(plan, i, DoneBatches(plan, f + 1), h);
    } else {
      NotInBatch(plan, i, h);
    }
  }

  lemma UndoneHost(plan: Plan, batch: seq<Host>, s: Deploy, h: Host)
    requires h in s.hosts
    ensures var t := UndoBatch(plan, batch, s).state;
            && h in t.hosts && t.progress == s.progress
            && t.hosts[h] == if h in batch then RestoreOf(plan, s, h, plan.undoLater).0 else s.hosts[h]
  {
  }

  lemma BackwardStops(plan: Plan, s0: Deploy, f: nat, k: nat, s: Deploy)
    requires Ready(plan, s0) && k < f && Stops(plan, s0, f, k + 1, s)
    ensures Stops(plan, s0, f, k, BackwardOf(plan, k, s).state)
  {
    if 3 <= k {
      UndoLeavesDb(plan, Batches(plan)[k - 3], s);
      AllUndone(plan, s0, f, k - 3, s, UndoBatch(plan, Batches(plan)[k - 3], s).state);
    } else {
      PlainBackward(plan, k, s);
      PlainUndone(plan, s0, f, k, s, BackwardOf(plan, k, s).state);
    }
  }

  lemma PlainBackward(plan: Plan, k: nat, s: Deploy)
    requires k < 3
    ensures var t := BackwardOf(plan, k, s).state;
            t.hosts == s.hosts && t.progress == s.progress && t.previous == s.previous && (t.db == s.db || (k == 2 && t.db == s.previous))
  {
  }

  lemma UndoLeavesDb(plan: Plan, batch: seq<Host>, s: Deploy)
    ensures var t := UndoBatch(plan, batch, s).state; t.hosts.Keys == s.hosts.Keys && t.db == s.db && t.previous == s.previous
  {
  }

  lemma AllUndone(plan: Plan, s0: Deploy, f: nat, i: nat, s: Deploy, t: Deploy)
    requires Ready(plan, s0) && i < |Batches(plan)| && 3 + i < f && Stops(plan, s0, f, 4 + i, s)
    requires t == UndoBatch(plan, Batches(plan)[i], s).state
    requires t.hosts.Keys == s.hosts.Keys && t.db == s.db && t.previous == s.previous
    ensures Stops(plan, s0, f, 3 + i, t)
  {
    forall h | h in s0.hosts ensures HostStops(plan, s0, f, 3 + i, t, h) {
      BatchUndone(plan, s0, f, i, s, h);
    }
  }

  lemma PlainUndone(plan: Plan, s0: Deploy, f: nat, k: nat, s: Deploy, t: Deploy)
    requires k < 3 && k < f && Stops(plan, s0, f, k + 1, s) && t.hosts == s.hosts && t.progress == s.progress
    requires t.previous == s.previous && (t.db == s.db || (k == 2 && t.db == s.previous))
    ensures Stops(plan, s0, f, k, t)
  {
    assert DoneBatches(plan, k) == DoneBatches(plan, k + 1);
    forall h | h in s0.hosts ensures HostStops(plan, s0, f, k, t, h) {
      assert HostStops(plan, s0, f, k + 1, s, h);
    }
  }

  lemma DeployIsTracked(plan: Plan, s0: Deploy)
    requires Ready(plan, s0)
    ensures Tracked(Steps(plan),
                    (k: nat, s: Deploy) => Up(plan, s0, k, s),
                    (f: nat, k: nat, s: Deploy) => Stops(plan, s0, f, k, s))
  {
    var steps := Steps(plan);
    var up := (k: nat, s: Deploy) => Up(plan, s0, k, s);
    var down := (f: nat, k: nat, s: Deploy) => Stops(plan, s0, f, k, s);
    forall k, s | 0 <= k < |steps| ensures ForwardTracked(steps[k], k, up, down, s) && CompensateTracked(steps[k], k, down, s) {
      StepIs(plan, k, s);
      if up(k, s) {
        ForwardFits(plan, s0, k, s);
        if steps[k].forward(s).Failed? {
          ForwardStops(plan, s0, k, s);
        }
      }
      forall f: nat | k < f && down(f, k + 1, s) ensures down(f, k, steps[k].compensate(s).state) {
        BackwardStops(plan, s0, f, k, s);
      }
    }
  }

  /** What a deploy can leave of a host: itself, how far it got, or what a restore made of that. */
  ghost predicate IsStoppingPoint(plan: Plan, s0: Deploy, h: Host, left: HostState)
    requires h in s0.hosts
  {
    || left == s0.hosts[h] || left == Reached(plan, s0, h).0
    || left == Undone(plan, s0, h, plan.undoNow) || left == Undone(plan, s0, h, plan.undoLater)
  }

  ghost predicate IsEnumerated(plan: Plan, s0: Deploy, last: nat, s: Deploy) {
    && s.hosts.Keys == s0.hosts.Keys && (s.db == s0.db || s.db == Landed(plan, s0.db))
    && forall h :: h in s0.hosts ==>
         IsStoppingPoint(plan, s0, h, s.hosts[h]) && (h !in Touched(plan, last) ==> s.hosts[h] == s0.hosts[h])
  }

  lemma {:induction false} TouchedGrows(plan: Plan, j: nat, k: nat, h: Host)
    requires j <= k && h in Touched(plan, j)
    ensures h in Touched(plan, k)
  {
    var a, b := DoneBatches(plan, j), DoneBatches(plan, k);
    var bs := Batches(plan)[..b];
    assert bs == bs[..a] + bs[a..] && bs[..a] == Batches(plan)[..a];
    ConcatSplit(bs[..a], bs[a..]);
  }

  lemma UpIsEnumerated(plan: Plan, s0: Deploy, j: nat, last: nat, s: Deploy)
    requires Up(plan, s0, j, s) && j <= last
    ensures IsEnumerated(plan, s0, last, s)
  {
    forall h | h in s0.hosts
      ensures IsStoppingPoint(plan, s0, h, s.hosts[h]) && (h !in Touched(plan, last) ==> s.hosts[h] == s0.hosts[h])
    {
      assert HostFits(plan, s0, j, s, h);
      if h in Touched(plan, j) {
        TouchedGrows(plan, j, last, h);
      }
    }
  }

  lemma DownIsEnumerated(plan: Plan, s0: Deploy, f: nat, j: nat, s: Deploy)
    requires Stops(plan, s0, f, j, s)
    ensures IsEnumerated(plan, s0, f + 1, s)
  {
    forall h | h in s0.hosts
      ensures IsStoppingPoint(plan, s0, h, s.hosts[h]) && (h !in Touched(plan, f + 1) ==> s.hosts[h] == s0.hosts[h])
    {
      assert HostStops(plan, s0, f, j, s, h);
      if h in Touched(plan, j) {
        TouchedGrows(plan, j, f + 1, h);
      }
    }
  }

  /**
   Whatever a deploy reports, a partial rollback or a store error included: hosts
   outside the inventory and hosts of batches after the failing one are untouched,
   every other host is itself, as far as it got, or what a restore made of that, and
   the database is on the old revision or the new one.
   */
  lemma EveryEnding(plan: Plan, s0: Deploy, store: Store)
    requires Ready(plan, s0)
    ensures var (end, _) := Execute(Steps(plan), 0, Idle, Run(s0, store, []));
            var failed := FailsAt(Steps(plan), 0, s0);
            && IsEnumerated(plan, s0, if failed.Some? then failed.value + 1 else |Steps(plan)|, end.state)
            && forall h :: h in s0.hosts && h !in plan.inventory ==> end.state.hosts[h] == s0.hosts[h]
  {
    var steps := Steps(plan);
    var up := (k: nat, s: Deploy) => Up(plan, s0, k, s);
    var down := (f: nat, k: nat, s: Deploy) => Stops(plan, s0, f, k, s);
    DeployIsTracked(plan, s0);
    assert Concat(Batches(plan)[..0]) == [];
    assert up(0, s0);
    ExecuteTracked(steps, up, down, 0, Idle, Run(s0, store, []));
    var (end, r) := Execute(steps, 0, Idle, Run(s0, store, []));
    var failed := FailsAt(steps, 0, s0);
    var last := if failed.Some? then failed.value + 1 else |steps|;
    if j: nat :| j <= failed.GetOr(|steps|) && up(j, end.state) {
      UpIsEnumerated(plan, s0, j, last, end.state);
    } else {
      var j: nat :| j <= failed.value && down(failed.value, j, end.state);
      DownIsEnumerated(plan, s0, failed.value, j, end.state);
    }
    forall h | h in s0.hosts && h !in plan.inventory ensures h !in Touched(plan, last) {
      OnlyInventoryIsTouched(plan, last, h);
    }
  }

  lemma OnlyInventoryIsTouched(plan: Plan, k: nat, h: Host)
    ensures h in Touched(plan, k) ==> h in plan.inventory
  {
    var n := DoneBatches(plan, k);
    var bs := Batches(plan);
    assert bs == bs[..n] + bs[n..];
    ConcatSplit(bs[..n], bs[n..]);
  }
}
