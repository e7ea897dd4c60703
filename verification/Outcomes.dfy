/**
 Which deploys commit, which roll back and which end partial, told from how each
 adapter call goes and nothing else.
 */
module Outcomes {
  import opened Basics
  import opened Saga
  import opened Rollout
  import opened Endings
  import Text

  // ---------------------------------------------------------------------------
  // Any saga

  ghost predicate UndoneWhen<R>(step: Step<R>, k: nat, at: (nat, R) -> bool, holds: nat -> bool, s: R) {
    var e := step.compensate(s);
    (e.Done? <==> holds(k)) && (e.Done? ==> at(k, e.state))
  }

  /** Compensations that each succeed under a condition all succeed when all the conditions hold. */
  lemma {:induction false} UnwindsWhen<R(!new)>(steps: seq<Step<R>>, at: (nat, R) -> bool, holds: nat -> bool, k: nat, s: R)
    requires k <= |steps| && at(k, s)
    requires forall j: nat, t :: j < k && at(j + 1, t) ==> UndoneWhen(steps[j], j, at, holds, t)
    ensures var e := Unwind(steps, k, s);
            (e.Done? <==> forall j: nat :: j < k ==> holds(j)) && (e.Done? ==> at(0, e.state))
    decreases k
  {
    if k > 0 {
      assert UndoneWhen(steps[k - 1], k - 1, at, holds, s);
      if steps[k - 1].compensate(s).Done? {
        UnwindsWhen(steps, at, holds, k - 1, steps[k - 1].compensate(s).state);
      }
    }
  }

  ghost predicate ClimbsOr<R>(step: Step<R>, k: nat, up: (nat, R) -> bool, left: (nat, R) -> bool, s: R) {
    var e := step.forward(s);
    if e.Done? then up(k + 1, e.state) else left(k, e.state)
  }

  lemma {:induction false} WindsUp<R(!new)>(steps: seq<Step<R>>, up: (nat, R) -> bool, left: (nat, R) -> bool, k: nat, s: R)
    requires k <= |steps| && up(k, s)
    requires forall j: nat, t :: j < |steps| && up(j, t) ==> ClimbsOr(steps[j], j, up, left, t)
    ensures var failed := FailsAt(steps, k, s);
            if failed.Some? then left(failed.value, Wind(steps, k, s)) else up(|steps|, Wind(steps, k, s))
    decreases |steps| - k
  {
    if k < |steps| {
      assert ClimbsOr(steps[k], k, up, left, s);
      if steps[k].forward(s).Done? {
        WindsUp(steps, up, left, k + 1, steps[k].forward(s).state);
      }
    }
  }

  ghost predicate ClimbsWhen<R>(step: Step<R>, k: nat, up: (nat, R) -> bool, holds: nat -> bool, s: R) {
    var e := step.forward(s);
    (e.Done? <==> holds(k)) && (e.Done? ==> up(k + 1, e.state))
  }

  /** Steps that each succeed under a condition fail at the first whose condition does not hold. */
  lemma {:induction false} FailsWhere<R(!new)>(steps: seq<Step<R>>, up: (nat, R) -> bool, holds: nat -> bool, k: nat, s: R)
    requires k <= |steps| && up(k, s)
    requires forall j: nat, t :: j < |steps| && up(j, t) ==> ClimbsWhen(steps[j], j, up, holds, t)
    ensures var failed := FailsAt(steps, k, s);
            && (failed.Some? ==> !holds(failed.value) && forall j: nat :: k <= j < failed.value ==> holds(j))
            && (failed.None? ==> forall j: nat :: k <= j < |steps| ==> holds(j))
    decreases |steps| - k
  {
    if k < |steps| {
      assert ClimbsWhen(steps[k], k, up, holds, s);
      if steps[k].forward(s).Done? {
        FailsWhere(steps, up, holds, k + 1, steps[k].forward(s).state);
      }
    }
  }

  // ---------------------------------------------------------------------------
  // Where a deploy fails

  /** Every call that advances a host works, and the host comes back healthy. */
  predicate Smooth(f: AdvanceFaults) {
    f.drain.Works? && f.activate.Works? && f.restart.Works? && f.healthy && f.reattach.Works?
  }

  predicate HostAdvances(plan: Plan, h: Host) {
    h in plan.advance ==> Smooth(plan.advance[h])
  }

  predicate Migrates(plan: Plan) {
    plan.readRevision && plan.up.Works?
  }

  ghost predicate Stages(plan: Plan) {
    forall h :: h in plan.inventory ==> h in plan.stage
  }

  /** Step `k` of the deploy has everything it needs. */
  ghost predicate StepHolds(plan: Plan, k: nat)
    requires k < |Batches(plan)| + 4
  {
    if k == 0 then plan.preflight
    else if k == 1 then Stages(plan)
    else if k == 2 then Migrates(plan)
    else if k < |Batches(plan)| + 3 then forall h :: h in Batches(plan)[k - 3] ==> HostAdvances(plan, h)
    else plan.verify
  }

  /** The first step that lacks something. */
  ghost predicate FailsFirst(plan: Plan, k: nat) {
    && k < |Batches(plan)| + 4 && !StepHolds(plan, k)
    && forall j :: 0 <= j < k ==> StepHolds(plan, j)
  }

  lemma AdvanceSucceedsIff(h: HostState, artifact: Artifact, f: AdvanceFaults)
    ensures Advance(h, Some(artifact), f).2 <==> Smooth(f)
  {
  }

  lemma BatchHoldsIff(plan: Plan, s0: Deploy, i: nat, s: Deploy)
    requires Ready(plan, s0) && i < |Batches(plan)| && Up(plan, s0, 3 + i, s)
    ensures RunBatch(plan, Batches(plan)[i], s).Done? <==> StepHolds(plan, 3 + i)
  {
    forall h | h in Batches(plan)[i]
      ensures h in s.hosts && (AdvanceOf(plan, s, h).2 <==> HostAdvances(plan, h))
    {
      BatchIsNew(plan, i, h);
      BatchUntouched(plan, s0, i, s, h);
      AdvanceSucceedsIff(s0.hosts[h], plan.stage[h], Lookup(plan.advance, h).GetOr(STEADY));
    }
  }

  lemma StepHoldsIff(plan: Plan, s0: Deploy, k: nat, s: Deploy)
    requires Ready(plan, s0) && k < |Steps(plan)| && Up(plan, s0, k, s)
    ensures Steps(plan)[k].forward(s).Done? <==> StepHolds(plan, k)
  {
    StepIs(plan, k, s);
    if 3 <= k < |Steps(plan)| - 1 {
      BatchHoldsIff(plan, s0, k - 3, s);
    }
  }

  lemma ReadyIsUp(plan: Plan, s0: Deploy)
    requires Ready(plan, s0)
    ensures Up(plan, s0, 0, s0)
  {
    assert Concat(Batches(plan)[..0]) == [];
  }

  /** A deploy fails at the first step that lacks something, and nowhere else. */
  lemma FailsAtFirst(plan: Plan, s0: Deploy)
    requires Ready(plan, s0)
    ensures var failed := FailsAt(Steps(plan), 0, s0);
            && (failed.None? <==> forall k :: 0 <= k < |Steps(plan)| ==> StepHolds(plan, k))
            && (forall k: nat :: failed == Some(k) <==> FailsFirst(plan, k))
  {
    var steps := Steps(plan);
    var up := (k: nat, s: Deploy) => Up(plan, s0, k, s);
    var holds := (k: nat) => k < |Batches(plan)| + 4 && StepHolds(plan, k);
    forall k: nat, s | k < |steps| && up(k, s) ensures ClimbsWhen(steps[k], k, up, holds, s) {
      StepHoldsIff(plan, s0, k, s);
      ForwardFits(plan, s0, k, s);
    }
    ReadyIsUp(plan, s0);
    FailsWhere(steps, up, holds, 0, s0);
    FirstIsFirst(plan, FailsAt(steps, 0, s0), holds);
  }

  lemma FirstIsFirst(plan: Plan, failed: Option<nat>, holds: nat -> bool)
    requires forall k: nat :: holds(k) <==> k < |Batches(plan)| + 4 && StepHolds(plan, k)
    requires failed.Some? ==> failed.value < |Batches(plan)| + 4 && !holds(failed.value) && forall j: nat :: j < failed.value ==> holds(j)
    requires failed.None? ==> forall j: nat :: j < |Batches(plan)| + 4 ==> holds(j)
    ensures failed.None? <==> forall k :: 0 <= k < |Steps(plan)| ==> StepHolds(plan, k)
    ensures forall k: nat :: failed == Some(k) <==> FailsFirst(plan, k)
  {
    assert failed.None? ==> forall k: nat :: k < |Batches(plan)| + 4 ==> holds(k) && StepHolds(plan, k);
    if failed.Some? {
      assert !StepHolds(plan, failed.value);
      assert forall j: nat :: j < failed.value ==> holds(j) && StepHolds(plan, j);
    }
  }

  lemma {:induction false} InSomePart(parts: seq<seq<Host>>, h: Host)
    ensures h in Concat(parts) <==> exists i :: 0 <= i < |parts| && h in parts[i]
  {
    if parts != [] {
      InSomePart(parts[1..], h);
      assert h in Concat(parts[1..]) ==> exists i :: 0 <= i < |parts[1..]| && h in parts[1..][i];
      if h in Concat(parts[1..]) {
        var i :| 0 <= i < |parts[1..]| && h in parts[1..][i];
        assert h in parts[i + 1];
      }
      if i :| 0 < i < |parts| && h in parts[i] {
        assert parts[1..][i - 1] == parts[i];
      }
    }
  }

  /** What a deploy needs to commit. */
  ghost predicate AllHolds(plan: Plan) {
    && plan.preflight && Stages(plan) && Migrates(plan) && plan.verify
    && forall h :: h in plan.inventory ==> HostAdvances(plan, h)
  }

  lemma AllHoldsIff(plan: Plan)
    ensures AllHolds(plan) <==> forall k :: 0 <= k < |Steps(plan)| ==> StepHolds(plan, k)
  {
    var n := |Batches(plan)|;
    forall h ensures h in plan.inventory <==> exists i :: 0 <= i < n && h in Batches(plan)[i] {
      InSomePart(Batches(plan), h);
    }
    if forall k :: 0 <= k < |Steps(plan)| ==> StepHolds(plan, k) {
      assert StepHolds(plan, 0) && StepHolds(plan, 1) && StepHolds(plan, 2) && StepHolds(plan, n + 3);
      forall h | h in plan.inventory ensures HostAdvances(plan, h) {
        var i :| 0 <= i < n && h in Batches(plan)[i];
        assert StepHolds(plan, 3 + i);
      }
    }
  }

  // ---------------------------------------------------------------------------
  // Which failures are undone

  function FaultsOf(plan: Plan, h: Host): AdvanceFaults {
    Lookup(plan.advance, h).GetOr(STEADY)
  }

  /** A restore of a host that got as far as `f` let it has every call it makes work, and a release to go back to. */
  predicate HostRecovers(f: AdvanceFaults, g: RestoreFaults, known: bool) {
    f.drain.Works? ==>
      && (f.activate.Works? ==> known && g.activate.Works? && g.restart.Works?)
      && (Smooth(f) ==> g.drain.Works?)
      && g.reattach.Works?
  }

  ghost predicate BatchRecovers(plan: Plan, i: nat, faults: map<Host, RestoreFaults>)
    requires i < |Batches(plan)|
  {
    forall h :: h in Batches(plan)[i] ==> HostRecovers(FaultsOf(plan, h), Lookup(faults, h).GetOr(CALM), h in plan.ledger)
  }

  /** The compensation of step `k` has everything it needs. */
  ghost predicate UndoHolds(plan: Plan, s0: Deploy, k: nat) {
    && (k == 2 && plan.ownsDatabase ==> s0.db.Some? && plan.downTo.Works?)
    && (3 <= k < |Batches(plan)| + 3 ==> BatchRecovers(plan, k - 3, plan.undoLater))
  }

  /** A deploy that fails at step `k` can be undone: the failing batch at once, the steps before it in reverse. */
  ghost predicate Recovers(plan: Plan, s0: Deploy, k: nat) {
    && (3 <= k < |Batches(plan)| + 3 ==> BatchRecovers(plan, k - 3, plan.undoNow))
    && forall j :: 0 <= j < k ==> UndoHolds(plan, s0, j)
  }

  lemma HostRecoversIff(h: HostState, artifact: Artifact, prior: Option<Artifact>, f: AdvanceFaults, g: RestoreFaults)
    ensures var a := Advance(h, Some(artifact), f); Restore(a.0, a.1, prior, g).1 <==> HostRecovers(f, g, prior.Some?)
  {
    var a := Advance(h, Some(artifact), f);
    RestoreSucceedsIff(a.0, a.1, prior, g);
  }

  lemma ReachedRecoversIff(plan: Plan, s0: Deploy, s: Deploy, h: Host, faults: map<Host, RestoreFaults>)
    requires h in s0.hosts && h in s.hosts && h in plan.stage
    requires s.hosts[h] == Reached(plan, s0, h).0 && h in s.progress && s.progress[h] == Reached(plan, s0, h).1
    ensures RestoreOf(plan, s, h, faults).1 <==> HostRecovers(FaultsOf(plan, h), Lookup(faults, h).GetOr(CALM), h in plan.ledger)
  {
    HostRecoversIff(s0.hosts[h], plan.stage[h], Lookup(plan.ledger, h), FaultsOf(plan, h), Lookup(faults, h).GetOr(CALM));
  }

  /** Whether a batch that fails could restore its own hosts. */
  lemma FailingBatchRecoversIff(plan: Plan, s0: Deploy, i: nat, s: Deploy)
    requires Ready(plan, s0) && i < |Batches(plan)| && Up(plan, s0, 3 + i, s)
    requires RunBatch(plan, Batches(plan)[i], s).Failed?
    ensures !RunBatch(plan, Batches(plan)[i], s).state.unrecoverable <==> BatchRecovers(plan, i, plan.undoNow)
  {
    var batch := Batches(plan)[i];
    var moved := Advanced(plan, batch, s);
    forall h | h in batch
      ensures h in moved.hosts
      ensures RestoreOf(plan, moved, h, plan.undoNow).1 <==> HostRecovers(FaultsOf(plan, h), Lookup(plan.undoNow, h).GetOr(CALM), h in plan.ledger)
    {
      BatchIsNew(plan, i, h);
      BatchUntouched(plan, s0, i, s, h);
      assert moved.hosts[h] == AdvanceOf(plan, s, h).0 && moved.progress[h] == AdvanceOf(plan, s, h).1;
      ReachedRecoversIff(plan, s0, moved, h, plan.undoNow);
    }
  }

  /** Whether a batch that advanced could be restored by its compensation. */
  lemma UndoBatchHoldsIff(plan: Plan, s0: Deploy, f: nat, i: nat, s: Deploy)
    requires Ready(plan, s0) && Stages(plan) && i < |Batches(plan)| && Stops(plan, s0, f, 4 + i, s)
    ensures UndoBatch(plan, Batches(plan)[i], s).Done? <==> BatchRecovers(plan, i, plan.undoLater)
  {
    forall h | h in Batches(plan)[i]
      ensures h in s.hosts
      ensures RestoreOf(plan, s, h, plan.undoLater).1 <==> HostRecovers(FaultsOf(plan, h), Lookup(plan.undoLater, h).GetOr(CALM), h in plan.ledger)
    {
      BatchIsNew(plan, i, h);
      assert h in s0.hosts && HostStops(plan, s0, f, 4 + i, s, h);
      ReachedRecoversIff(plan, s0, s, h, plan.undoLater);
    }
  }

  lemma UndoHoldsIff(plan: Plan, s0: Deploy, f: nat, k: nat, s: Deploy)
    requires Ready(plan, s0) && k < f && Stops(plan, s0, f, k + 1, s) && (f >= 2 ==> Stages(plan))
    ensures BackwardOf(plan, k, s).Done? <==> UndoHolds(plan, s0, k)
    ensures BackwardOf(plan, k, s).Done? ==> BackwardOf(plan, k, s).state.unrecoverable == s.unrecoverable
  {
    if 3 <= k < |Steps(plan)| - 1 {
      UndoBatchHoldsIff(plan, s0, f, k - 3, s);
    }
  }

  lemma UnwindHoldsIff(plan: Plan, s0: Deploy, f: nat, s: Deploy)
    requires Ready(plan, s0) && Stops(plan, s0, f, f, s) && (f >= 2 ==> Stages(plan))
    ensures var e := Unwind(Steps(plan), f, s);
            && (e.Done? <==> forall j :: 0 <= j < f ==> UndoHolds(plan, s0, j))
            && (e.Done? ==> e.state.unrecoverable == s.unrecoverable)
  {
    var steps := Steps(plan);
    var at := (k: nat, t: Deploy) => Stops(plan, s0, f, k, t) && t.unrecoverable == s.unrecoverable;
    var holds := (k: nat) => UndoHolds(plan, s0, k);
    forall j: nat, t | j < f && at(j + 1, t) ensures UndoneWhen(steps[j], j, at, holds, t) {
      StepIs(plan, j, t);
      UndoHoldsIff(plan, s0, f, j, t);
      BackwardStops(plan, s0, f, j, t);
    }
    UnwindsWhen(steps, at, holds, f, s);
    assert forall j: nat :: holds(j) <==> UndoHolds(plan, s0, j);
  }

  /** What a failing step leaves, and whether it lost a host. */
  ghost predicate LeftFailing(plan: Plan, s0: Deploy, f: nat, t: Deploy) {
    && Stops(plan, s0, f, f, t)
    && (!t.unrecoverable <==> (3 <= f < |Batches(plan)| + 3 ==> BatchRecovers(plan, f - 3, plan.undoNow)))
  }

  lemma FailingStep(plan: Plan, s0: Deploy, k: nat, s: Deploy)
    requires Ready(plan, s0) && k < |Steps(plan)| && Up(plan, s0, k, s) && ForwardOf(plan, k, s).Failed?
    ensures LeftFailing(plan, s0, k, ForwardOf(plan, k, s).state)
  {
    ForwardStops(plan, s0, k, s);
    if 3 <= k < |Steps(plan)| - 1 {
      FailingBatchRecoversIff(plan, s0, k - 3, s);
    }
  }

  lemma FailingState(plan: Plan, s0: Deploy)
    requires Ready(plan, s0) && FailsAt(Steps(plan), 0, s0).Some?
    ensures LeftFailing(plan, s0, FailsAt(Steps(plan), 0, s0).value, Wind(Steps(plan), 0, s0))
  {
    var steps := Steps(plan);
    var up := (k: nat, s: Deploy) => Up(plan, s0, k, s);
    var left := (k: nat, s: Deploy) => LeftFailing(plan, s0, k, s);
    forall k: nat, s | k < |steps| && up(k, s) ensures ClimbsOr(steps[k], k, up, left, s) {
      ForwardFits(plan, s0, k, s);
      StepIs(plan, k, s);
      if steps[k].forward(s).Failed? {
        FailingStep(plan, s0, k, s);
      }
    }
    ReadyIsUp(plan, s0);
    WindsUp(steps, up, left, 0, s0);
  }

  function StepName(plan: Plan, k: nat): string {
    if k == 0 then "preflight" else if k == 1 then "fetch" else if k == 2 then "migrate"
    else if k < |Batches(plan)| + 3 then "rollout-" + Text.Decimal(k - 2) else "verify"
  }

  /**
   What every deploy reports, for every fleet, batch size, fault plan and store
   schedule. A deploy that reports an outcome commits exactly when every step has
   what it needs; it reports a rollback, naming the first step that lacks
   something, exactly when every call that undoes it works too, and a partial
   rollback otherwise. It always reports one when the store takes every write.
   */
  lemma DeployOutcome(plan: Plan, s0: Deploy, store: Store)
    requires Ready(plan, s0)
    ensures var (end, r) := Execute(Steps(plan), 0, Idle, Run(s0, store, []));
            && (store.faults == [] ==> r.Ok?)
            && (r.Ok? ==>
                  var o := Finalize(r.value, end.state);
                  && (o.RunCommitted? <==> AllHolds(plan))
                  && (o.RunRolledBack? <==> exists k :: FailsFirst(plan, k) && Recovers(plan, s0, k))
                  && (o.RunRolledBack? ==> exists k :: FailsFirst(plan, k) && o.failedStep == StepName(plan, k)))
  {
    var steps := Steps(plan);
    var failed := FailsAt(steps, 0, s0);
    var run := Run(s0, store, []);
    UndisturbedRun(steps, 0, Idle, run);
    FailsAtFirst(plan, s0);
    AllHoldsIff(plan);
    if failed.Some? {
      var f := failed.value;
      var top := Wind(steps, 0, s0);
      assert FailsFirst(plan, f);
      assert f >= 2 ==> StepHolds(plan, 1);
      FailingState(plan, s0);
      UnwindHoldsIff(plan, s0, f, top);
      NameOf(plan, f);
    }
  }

  lemma NameOf(plan: Plan, k: nat)
    requires k < |Steps(plan)|
    ensures Steps(plan)[k].name == StepName(plan, k)
  {
    if 3 <= k < |Steps(plan)| - 1 {
      assert Steps(plan)[k] == BatchStep(plan, k - 3);
    }
  }
}
