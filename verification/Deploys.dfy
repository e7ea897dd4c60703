/**
 One deploy after another: the release ledger that each deploy's rollback relies on,
 over any sequence of deploys, and a deploy whose rollback forgets a drain.
 */
module Deploys {
  import opened Basics
  import opened Saga
  import opened Rollout

  /** What outlives a deploy: the fleet, the database and the release ledger. */
  datatype Fleet = Fleet(hosts: map<Host, HostState>, db: Option<Revision>, ledger: map<Host, Artifact>)

  function Start(fleet: Fleet): Deploy {
    Deploy(fleet.hosts, fleet.db, map[], None, None, map[], false)
  }

  /** `run`: read the ledger, run the saga, record the staged artifacts on a commit. */
  function RunDeploy(fleet: Fleet, plan: Plan, store: Store): (Fleet, Result<Outcome, StoreError>) {
    var (end, r) := Execute(Steps(plan.(ledger := fleet.ledger)), 0, Idle, Run(Start(fleet), store, []));
    var s := end.state;
    if r.Err? then (Fleet(s.hosts, s.db, fleet.ledger), r)
    else
      var o := Finalize(r.value, s);
      (Fleet(s.hosts, s.db, if o.RunCommitted? then s.staged else fleet.ledger), Ok(o))
  }

  ghost predicate LedgerHolds(fleet: Fleet) {
    forall h :: h in fleet.ledger ==>
      h in fleet.hosts && fleet.hosts[h].active == Some(fleet.ledger[h]) && fleet.hosts[h].running == Some(fleet.ledger[h])
  }

  /** The failing step forgot an activation of a host the ledger names. */
  ghost predicate Misleads(fleet: Fleet, p: Plan, failed: nat) {
    exists h :: h in fleet.ledger && h in fleet.hosts && Damages(p, Start(fleet), failed, h) && LeftOf(p, Start(fleet), h).active != fleet.hosts[h].active
  }

  /** The deploy ended in a commit, or in a rollback that forgot no activation; a forgotten drain does no harm here. */
  ghost predicate Settles(fleet: Fleet, plan: Plan, store: Store) {
    var p := plan.(ledger := fleet.ledger);
    var (_, r) := RunDeploy(fleet, plan, store);
    && Distinct(plan.inventory) && (forall h :: h in plan.inventory ==> h in fleet.hosts)
    && r.Ok? && !r.value.RunPartial?
    && (r.value.RunRolledBack? ==>
          var failed := FailsAt(Steps(p), 0, Start(fleet));
          failed.Some? && !Misleads(fleet, p, failed.value))
  }

  function RunDeploys(fleet: Fleet, runs: seq<(Plan, Store)>): Fleet
    decreases |runs|
  {
    if runs == [] then fleet
    else RunDeploys(RunDeploy(fleet, runs[0].0, runs[0].1).0, runs[1..])
  }

  ghost predicate AllSettle(fleet: Fleet, runs: seq<(Plan, Store)>)
    decreases |runs|
  {
    runs != [] ==>
      Settles(fleet, runs[0].0, runs[0].1) && AllSettle(RunDeploy(fleet, runs[0].0, runs[0].1).0, runs[1..])
  }

  /**
   The ledger each deploy relies on for its own rollback is true after any number
   of deploys, whatever inventories they used, committed or rolled back.
   */
  lemma {:induction false} LedgerStaysTrue(fleet: Fleet, runs: seq<(Plan, Store)>)
    requires LedgerHolds(fleet) && AllSettle(fleet, runs)
    ensures LedgerHolds(RunDeploys(fleet, runs))
    decreases |runs|
  {
    if runs != [] {
      OneDeployKeepsLedger(fleet, runs[0].0, runs[0].1);
      LedgerStaysTrue(RunDeploy(fleet, runs[0].0, runs[0].1).0, runs[1..]);
    }
  }

  /** A reported rollback keeps the ledger true exactly when the failing step forgot no activation of a host in it. */
  lemma RollbackKeepsLedgerIff(fleet: Fleet, plan: Plan, store: Store)
    requires LedgerHolds(fleet) && Distinct(plan.inventory) && forall h :: h in plan.inventory ==> h in fleet.hosts
    requires var r := RunDeploy(fleet, plan, store).1; r.Ok? && r.value.RunRolledBack?
    ensures var failed := FailsAt(Steps(plan.(ledger := fleet.ledger)), 0, Start(fleet));
            failed.Some? && (LedgerHolds(RunDeploy(fleet, plan, store).0) <==> !Misleads(fleet, plan.(ledger := fleet.ledger), failed.value))
  {
    var p := plan.(ledger := fleet.ledger);
    ReadyWithLedger(fleet, plan);
    DeployIsAtomic(p, Start(fleet), store);
    var (after, r) := RunDeploy(fleet, plan, store);
    var (end, raw) := Execute(Steps(p), 0, Idle, Run(Start(fleet), store, []));
    assert raw.Ok? && Finalize(raw.value, end.state).RunRolledBack?;
    assert after.hosts == end.state.hosts && after.ledger == fleet.ledger;
    LeftLedger(fleet, p, FailsAt(Steps(p), 0, Start(fleet)).value, after);
  }

  lemma LeftLedger(fleet: Fleet, p: Plan, failed: nat, after: Fleet)
    requires LedgerHolds(fleet) && IsLeft(p, Start(fleet), failed, after.hosts) && after.ledger == fleet.ledger
    ensures LedgerHolds(after) <==> !Misleads(fleet, p, failed)
  {
    forall h | h in fleet.ledger
      ensures h in after.hosts && after.hosts[h].running == Some(fleet.ledger[h])
      ensures after.hosts[h].active == Some(fleet.ledger[h]) <==>
                !(Damages(p, Start(fleet), failed, h) && LeftOf(p, Start(fleet), h).active != fleet.hosts[h].active)
    {
      assert h in fleet.hosts;
    }
  }

  lemma ReadyWithLedger(fleet: Fleet, plan: Plan)
    requires LedgerHolds(fleet) && Distinct(plan.inventory) && forall h :: h in plan.inventory ==> h in fleet.hosts
    ensures Ready(plan.(ledger := fleet.ledger), Start(fleet))
  {
    var p := plan.(ledger := fleet.ledger);
    assert forall h :: h in p.inventory && h in fleet.ledger ==> Lookup(p.ledger, h) == Some(fleet.ledger[h]);
  }

  lemma OneDeployKeepsLedger(fleet: Fleet, plan: Plan, store: Store)
    requires LedgerHolds(fleet) && Settles(fleet, plan, store)
    ensures LedgerHolds(RunDeploy(fleet, plan, store).0)
  {
    var p := plan.(ledger := fleet.ledger);
    ReadyWithLedger(fleet, plan);
    DeployIsAtomic(p, Start(fleet), store);
    var (after, r) := RunDeploy(fleet, plan, store);
    var (end, raw) := Execute(Steps(p), 0, Idle, Run(Start(fleet), store, []));
    if r.value.RunRolledBack? {
      RollbackKeepsLedgerIff(fleet, plan, store);
    } else {
      assert raw.Ok? && Finalize(raw.value, end.state).RunCommitted? && after.ledger == end.state.staged;
      assert after.ledger.Keys == (set h | h in p.inventory);
      forall h | h in after.ledger
        ensures h in after.hosts && after.hosts[h].active == Some(after.ledger[h]) && after.hosts[h].running == Some(after.ledger[h])
      {
        assert h in after.ledger.Keys && h in p.inventory && h in fleet.hosts;
        assert Advances(fleet.hosts[h], after.hosts[h], after.ledger[h]);
      }
    }
  }

  /** The ledger names exactly what the last commit put on each host, and no other ending changes it. */
  lemma LedgerIsLastCommit(fleet: Fleet, plan: Plan, store: Store)
    requires LedgerHolds(fleet) && Distinct(plan.inventory) && forall h :: h in plan.inventory ==> h in fleet.hosts
    ensures var (after, r) := RunDeploy(fleet, plan, store);
            if r == Ok(RunCommitted)
            then (forall h :: h in plan.inventory ==> h in plan.stage) && after.ledger == (map h | h in plan.inventory :: plan.stage[h])
            else after.ledger == fleet.ledger
  {
    var p := plan.(ledger := fleet.ledger);
    ReadyWithLedger(fleet, plan);
    DeployIsAtomic(p, Start(fleet), store);
    var (after, r) := RunDeploy(fleet, plan, store);
    var (end, raw) := Execute(Steps(p), 0, Idle, Run(Start(fleet), store, []));
    if r == Ok(RunCommitted) {
      assert raw.Ok? && Finalize(raw.value, end.state).RunCommitted? && after.ledger == end.state.staged;
    }
  }

  const LONE: Host := "web-1"

  /** One host in the pool; the balancer marks it down and then its reload fails. */
  const LATE_DRAIN :=
    Plan([LONE], None, map[LONE := "v1"], true, map[LONE := "v2"], true, true, Works, Some("r2"), Works,
         map[LONE := STEADY.(drain := FailsLate)], map[], map[], true)

  const BEFORE :=
    Deploy(map[LONE := HostState(Some("v1"), Some("v1"), Membership(InPool, None))], Some("r1"), map[], None, None, map[], false)

  /** The states of that deploy, up to the failing batch. */
  lemma LateDrainClimbs() returns (s: Deploy)
    ensures s == Migrate(LATE_DRAIN, Fetch(LATE_DRAIN, BEFORE).state).state && s.hosts == BEFORE.hosts && s.progress == map[]
    ensures s.previous == Some("r1") && !s.unrecoverable
    ensures FailsAt(Steps(LATE_DRAIN), 0, BEFORE) == FailsAt(Steps(LATE_DRAIN), 3, s)
    ensures Wind(Steps(LATE_DRAIN), 0, BEFORE) == Wind(Steps(LATE_DRAIN), 3, s)
    ensures |Steps(LATE_DRAIN)| == 5 && Batches(LATE_DRAIN) == [[LONE]]
  {
    var plan := LATE_DRAIN;
    var steps := Steps(plan);
    assert Batches(plan) == [[LONE]];
    var s1 := BEFORE;
    assert steps[0].forward(BEFORE) == Done(s1);
    var s2 := Fetch(plan, s1).state;
    assert steps[1].forward(s1) == Done(s2);
    s := Migrate(plan, s2).state;
    assert steps[2].forward(s2) == Done(s);
    assert FailsAt(steps, 2, s2) == FailsAt(steps, 3, s) && Wind(steps, 2, s2) == Wind(steps, 3, s);
    assert FailsAt(steps, 1, s1) == FailsAt(steps, 2, s2) && Wind(steps, 1, s1) == Wind(steps, 2, s2);
  }

  /** What the failing batch leaves: the host out of the pool, and no record of its drain. */
  lemma LateDrainFails(s: Deploy) returns (t: Deploy)
    requires s.hosts == BEFORE.hosts && s.progress == map[] && s.previous == Some("r1") && !s.unrecoverable
    ensures var e := RunBatch(LATE_DRAIN, [LONE], s); e.Failed? && e.state == t
    ensures !t.unrecoverable && t.previous == Some("r1")
    ensures LONE in t.hosts && t.hosts[LONE].pool == Membership(Removed, None)
  {
    t := RunBatch(LATE_DRAIN, [LONE], s).state;
    var moved := Advanced(LATE_DRAIN, [LONE], s);
    assert LONE in s.hosts && LONE in [LONE];
    assert AdvanceOf(LATE_DRAIN, s, LONE) == (BEFORE.hosts[LONE].(pool := Membership(Removed, None)), UNTOUCHED, false);
    assert moved.hosts.Keys == {LONE} && moved.progress[LONE] == UNTOUCHED;
    assert RestoreOf(LATE_DRAIN, moved, LONE, map[]) == (moved.hosts[LONE], true);
  }

  /**
   A late drain failure is one the rollout forgets: the deploy fails there, reports
   a clean rollback, and leaves the host out of the pool.
   */
  lemma LateDrainIsForgotten()
    ensures Ready(LATE_DRAIN, BEFORE)
    ensures FailsAt(Steps(LATE_DRAIN), 0, BEFORE) == Some(3) && Forgets(LATE_DRAIN, BEFORE, 3)
    ensures var (end, r) := Execute(Steps(LATE_DRAIN), 0, Idle, Run(BEFORE, Store([], [], []), []));
            && r.Ok? && Finalize(r.value, end.state).RunRolledBack?
            && LONE in end.state.hosts && end.state.hosts[LONE].pool.state == Removed
            && BEFORE.hosts[LONE].pool.state == InPool
  {
    var plan, steps := LATE_DRAIN, Steps(LATE_DRAIN);
    var s := LateDrainClimbs();
    var t := LateDrainFails(s);
    assert steps[3].forward(s) == RunBatch(plan, [LONE], s);
    assert Damages(plan, BEFORE, 3, LONE);
    UndisturbedRun(steps, 0, Idle, Run(BEFORE, Store([], [], []), []));
    var u := t.(db := t.previous);
    assert steps[2].compensate(t) == Done(u) && steps[1].compensate(u) == Done(u) && steps[0].compensate(u) == Done(u);
    assert Unwind(steps, 0, u) == Done(u) && Unwind(steps, 1, u) == Done(u) && Unwind(steps, 2, u) == Done(u);
    assert Unwind(steps, 3, t) == Done(u);
  }
}
