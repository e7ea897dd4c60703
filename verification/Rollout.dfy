/**
 The multi-host deploy of `fraisier-core`, composed from the saga driver:
 preflight, fetch, migrate, one rollout step per batch, verify.

 Every adapter call is fallible, and a failing call may fail before or after it
 took effect. The hosts of a batch advance concurrently, each touching only its
 own state and its own progress slot, so a batch is a pointwise update.
 */
module Rollout {
  import opened Basics
  import opened Saga
  import Text

  type Host = string
  type Artifact = string
  type Revision = string

  /** How one adapter call goes. `FailsLate` took effect and then reported an error. */
  datatype Call = Works | Refuses | FailsLate

  datatype HostState = HostState(active: Option<Artifact>, running: Option<Artifact>, pool: Membership)

  /** How far a host got, as the rollout records it. */
  datatype Progress = Progress(drained: Option<Membership>, activated: bool, reattached: bool)

  const UNTOUCHED := Progress(None, false, false)

  datatype AdvanceFaults = AdvanceFaults(drain: Call, activate: Call, restart: Call, healthy: bool, reattach: Call)
  datatype RestoreFaults = RestoreFaults(drain: Call, activate: Call, restart: Call, reattach: Call)

  function Land(call: Call, before: HostState, after: HostState): HostState {
    if call.Refuses? then before else after
  }

  function Out(m: Membership): Membership {
    m.(state := Removed)
  }

  /** `advance_host`: drain, activate, restart, health, reattach. */
  function Advance(h: HostState, staged: Option<Artifact>, f: AdvanceFaults): (r: (HostState, Progress, bool)) {
    var drained := h.(pool := Out(h.pool));
    if !f.drain.Works? then (Land(f.drain, h, drained), UNTOUCHED, false)
    else
      var p := Progress(Some(h.pool), false, false);
      if staged.None? then (drained, p, false)
      else
        var activated := drained.(active := staged);
        if !f.activate.Works? then (Land(f.activate, drained, activated), p, false)
        else
          var restarted := activated.(running := staged);
          if !f.restart.Works? then (Land(f.restart, activated, restarted), p.(activated := true), false)
          else if !f.healthy then (restarted, p.(activated := true), false)
          else
            var back := restarted.(pool := h.pool);
            if !f.reattach.Works? then (Land(f.reattach, restarted, back), p.(activated := true), false)
            else (back, p.(activated := true, reattached := true), true)
  }

  /** The end of `restore_host`: give the host back the membership captured at its drain. */
  function Rejoin(h: HostState, pool: Membership, call: Call): (HostState, bool) {
    (Land(call, h, h.(pool := pool)), call.Works?)
  }

  /** `restore_host`: undo exactly the steps the progress records. */
  function Restore(h: HostState, p: Progress, prior: Option<Artifact>, f: RestoreFaults): (r: (HostState, bool)) {
    if p.drained.None? then (h, true)
    else
      var out := h.(pool := Out(h.pool));
      if p.reattached && !f.drain.Works? then (Land(f.drain, h, out), false)
      else
        var idle := if p.reattached then out else h;
        if !p.activated then Rejoin(idle, p.drained.value, f.reattach)
        else if prior.None? then (idle, false)
        else
          var back := idle.(active := prior);
          if !f.activate.Works? then (Land(f.activate, idle, back), false)
          else if !f.restart.Works? then (Land(f.restart, back, back.(running := prior)), false)
          else Rejoin(back.(running := prior), p.drained.value, f.reattach)
  }

  /** The ledger entry, when there is one, is what the host really has. */
  predicate LedgerTrue(h: HostState, prior: Option<Artifact>) {
    prior.Some? ==> h.active == prior && h.running == prior
  }

  /**
   The two calls whose late failure the rollout forgets: a drain that failed is
   recorded as never drained, an activation that failed as never activated. They
   are harmless only when their effect is no change.
   */
  predicate Remembers(h: HostState, staged: Option<Artifact>, f: AdvanceFaults) {
    && (f.drain.FailsLate? ==> h.pool == Out(h.pool))
    && (f.drain.Works? && f.activate.FailsLate? && staged.Some? ==> h.active == staged)
  }

  /** What a restore that reports success leaves of a host: itself, but for a forgotten drain or activation. */
  function Left(h: HostState, staged: Option<Artifact>, f: AdvanceFaults): HostState {
    if f.drain.FailsLate? then h.(pool := Out(h.pool))
    else if f.drain.Works? && staged.Some? && f.activate.FailsLate? then h.(active := staged)
    else h
  }

  /** However far a host got, a restore that reports success put back exactly what was there, or what `Left` says. */
  lemma RestoreUndoes(h: HostState, staged: Option<Artifact>, prior: Option<Artifact>, f: AdvanceFaults, g: RestoreFaults)
    requires LedgerTrue(h, prior)
    requires Restore(Advance(h, staged, f).0, Advance(h, staged, f).1, prior, g).1
    ensures Restore(Advance(h, staged, f).0, Advance(h, staged, f).1, prior, g).0 == Left(h, staged, f)
    ensures Left(h, staged, f) == h <==> Remembers(h, staged, f)
  {
  }

  /**
   How far a host with a staged artifact gets, part by part. A call is made when
   every call before it worked, and takes effect unless it refuses.
   */
  lemma AdvanceLeaves(h: HostState, artifact: Artifact, f: AdvanceFaults)
    ensures var (left, progress, ok) := Advance(h, Some(artifact), f);
            var activates := f.drain.Works? && !f.activate.Refuses?;
            var restarts := f.drain.Works? && f.activate.Works? && !f.restart.Refuses?;
            var rejoins := f.drain.Works? && f.activate.Works? && f.restart.Works? && f.healthy && !f.reattach.Refuses?;
            && left.active == (if activates then Some(artifact) else h.active)
            && left.running == (if restarts then Some(artifact) else h.running)
            && left.pool == (if f.drain.Refuses? || rejoins then h.pool else Membership(Removed, h.pool.weight))
            && progress.drained == (if f.drain.Works? then Some(h.pool) else None)
            && (progress.activated <==> f.drain.Works? && f.activate.Works?)
            && (progress.reattached <==> rejoins && f.reattach.Works?)
            && (ok <==> progress.reattached)
  {
  }

  /** What a restore leaves, part by part: nothing is touched unless a drain was recorded. */
  lemma RestoreLeaves(h: HostState, p: Progress, prior: Option<Artifact>, f: RestoreFaults)
    ensures var left := Restore(h, p, prior, f).0;
            var idles := p.drained.Some? && (p.reattached ==> f.drain.Works?);
            var activates := idles && p.activated && prior.Some? && !f.activate.Refuses?;
            var restarts := activates && f.activate.Works? && !f.restart.Refuses?;
            var rejoins := idles && (p.activated ==> restarts && f.restart.Works?) && !f.reattach.Refuses?;
            && left.active == (if activates then prior else h.active)
            && left.running == (if restarts then prior else h.running)
            && left.pool == (if rejoins then p.drained.value
                             else if p.drained.Some? && p.reattached && !f.drain.Refuses? then Membership(Removed, h.pool.weight)
                             else h.pool)
  {
  }

  /**
   A restore reports success exactly when every call the progress asks for works,
   and the artifact to go back to is known if there is an activation to undo.
   */
  lemma RestoreSucceedsIff(h: HostState, p: Progress, prior: Option<Artifact>, f: RestoreFaults)
    ensures Restore(h, p, prior, f).1 <==>
              p.drained.Some? ==>
                && (p.reattached ==> f.drain.Works?)
                && (p.activated ==> prior.Some? && f.activate.Works? && f.restart.Works?)
                && f.reattach.Works?
  {
  }

  // ---------------------------------------------------------------------------
  // The deploy as a saga

  datatype Deploy = Deploy(
    hosts: map<Host, HostState>,
    db: Option<Revision>,
    staged: map<Host, Artifact>,
    previous: Option<Revision>,
    next: Option<Revision>,
    progress: map<Host, Progress>,
    unrecoverable: bool)

  /** One deploy: what it was asked to do, and how every call of it goes. */
  datatype Plan = Plan(
    inventory: seq<Host>,
    rolling: Option<nat>,
    ledger: map<Host, Artifact>,
    preflight: bool,
    stage: map<Host, Artifact>,
    ownsDatabase: bool,
    readRevision: bool,
    up: Call,
    upTo: Option<Revision>,
    downTo: Call,
    advance: map<Host, AdvanceFaults>,
    undoNow: map<Host, RestoreFaults>,
    undoLater: map<Host, RestoreFaults>,
    verify: bool)

  const STEADY := AdvanceFaults(Works, Works, Works, true, Works)
  const CALM := RestoreFaults(Works, Works, Works, Works)

  function Lookup<T>(m: map<Host, T>, h: Host): Option<T> {
    if h in m then Some(m[h]) else None
  }

  /** `plan_batches`. */
  function Batches(plan: Plan): (r: seq<seq<Host>>)
    ensures Concat(r) == plan.inventory
    ensures plan.rolling.None? ==> |r| == 1
    ensures plan.rolling.Some? ==> forall i :: 0 <= i < |r| ==> 0 < |r[i]| <= Max(plan.rolling.value, 1)
    ensures plan.rolling.Some? ==> forall i :: 0 <= i < |r| - 1 ==> |r[i]| == Max(plan.rolling.value, 1)
  {
    if plan.rolling.None? then
      assert Concat([plan.inventory]) == plan.inventory + Concat([]);
      [plan.inventory]
    else Chunks(plan.inventory, if plan.rolling.value == 0 then 1 else plan.rolling.value)
  }

  function Fail(s: Deploy, message: string): Effect<Deploy> {
    Failed(s, message)
  }

  function Fetch(plan: Plan, s: Deploy): Effect<Deploy> {
    if forall h | h in plan.inventory :: h in plan.stage
    then Done(s.(staged := map h | h in plan.inventory :: plan.stage[h]))
    else Fail(s, "host(s) failed to stage")
  }

  function Landed(plan: Plan, db: Option<Revision>): Option<Revision> {
    if plan.ownsDatabase && plan.upTo.Some? then plan.upTo else db
  }

  function Migrate(plan: Plan, s: Deploy): Effect<Deploy> {
    if !plan.readRevision then Fail(s, "migrate")
    else
      var t := s.(previous := s.db);
      match plan.up
      case Refuses => Fail(t, "migrate")
      case FailsLate => Fail(t.(db := Landed(plan, s.db)), "migrate")
      case Works => Done(t.(db := Landed(plan, s.db), next := if plan.upTo.Some? then plan.upTo else s.db))
  }

  function UndoMigrate(plan: Plan, s: Deploy): Effect<Deploy> {
    if !plan.ownsDatabase then Done(s)
    else if s.previous.None? then Fail(s, "cannot roll back the initial migration")
    else if plan.downTo.Works? then Done(s.(db := s.previous))
    else Fail(if plan.downTo.Refuses? then s else s.(db := s.previous), "migrate")
  }

  function AdvanceOf(plan: Plan, s: Deploy, h: Host): (HostState, Progress, bool)
    requires h in s.hosts
  {
    Advance(s.hosts[h], Lookup(s.staged, h), Lookup(plan.advance, h).GetOr(STEADY))
  }

  function RestoreOf(plan: Plan, s: Deploy, h: Host, faults: map<Host, RestoreFaults>): (HostState, bool)
    requires h in s.hosts
  {
    Restore(s.hosts[h], Lookup(s.progress, h).GetOr(UNTOUCHED), Lookup(plan.ledger, h), Lookup(faults, h).GetOr(CALM))
  }

  /** Every host of the batch advanced, each progress slot merged afterwards. */
  function Advanced(plan: Plan, batch: seq<Host>, s: Deploy): Deploy {
    s.(hosts := map h | h in s.hosts :: if h in batch then AdvanceOf(plan, s, h).0 else s.hosts[h],
       progress := map h | h in s.hosts.Keys + s.progress.Keys ::
         if h in batch && h in s.hosts then AdvanceOf(plan, s, h).1 else Lookup(s.progress, h).GetOr(UNTOUCHED))
  }

  function Restored(plan: Plan, batch: seq<Host>, s: Deploy, faults: map<Host, RestoreFaults>): Deploy {
    s.(hosts := map h | h in s.hosts :: if h in batch then RestoreOf(plan, s, h, faults).0 else s.hosts[h])
  }

  predicate AllAdvance(plan: Plan, batch: seq<Host>, s: Deploy) {
    forall h | h in s.hosts && h in batch :: AdvanceOf(plan, s, h).2
  }

  predicate AllRestore(plan: Plan, batch: seq<Host>, s: Deploy, faults: map<Host, RestoreFaults>) {
    forall h | h in s.hosts && h in batch :: RestoreOf(plan, s, h, faults).1
  }

  /** `run_rollout`: a batch with a failure restores its own hosts before it reports. */
  function RunBatch(plan: Plan, batch: seq<Host>, s: Deploy): Effect<Deploy> {
    var moved := Advanced(plan, batch, s);
    if AllAdvance(plan, batch, s) then Done(moved)
    else
      var back := Restored(plan, batch, moved, plan.undoNow);
      Fail(if AllRestore(plan, batch, moved, plan.undoNow) then back else back.(unrecoverable := true),
           "host(s) failed to advance")
  }

  /** `restore_batch`, as the saga's compensation. */
  function UndoBatch(plan: Plan, batch: seq<Host>, s: Deploy): Effect<Deploy> {
    var back := Restored(plan, batch, s, plan.undoLater);
    if AllRestore(plan, batch, s, plan.undoLater) then Done(back) else Fail(back, "host(s) could not be restored")
  }

  function Nothing(s: Deploy): Effect<Deploy> {
    Done(s)
  }

  function Check(ok: bool, s: Deploy): Effect<Deploy> {
    if ok then Done(s) else Fail(s, "check failed")
  }

  function BatchStep(plan: Plan, i: nat): Step<Deploy>
    requires i < |Batches(plan)|
  {
    var batch := Batches(plan)[i];
    Step("rollout-" + Text.Decimal(i + 1), (s: Deploy) => RunBatch(plan, batch, s), (s: Deploy) => UndoBatch(plan, batch, s))
  }

  function Steps(plan: Plan): (r: seq<Step<Deploy>>)
    ensures |r| == |Batches(plan)| + 4
  {
    [Step("preflight", (s: Deploy) => Check(plan.preflight, s), Nothing),
     Step("fetch", (s: Deploy) => Fetch(plan, s), Nothing),
     Step("migrate", (s: Deploy) => Migrate(plan, s), (s: Deploy) => UndoMigrate(plan, s))]
    + seq(|Batches(plan)|, i requires 0 <= i < |Batches(plan)| => BatchStep(plan, i))
    + [Step("verify", (s: Deploy) => Check(plan.verify, s), Nothing)]
  }

  /** `finalize`: a clean rollback that left a host unrecoverable is a partial one. */
  function Finalize(o: Outcome, s: Deploy): Outcome {
    if o.RunRolledBack? && s.unrecoverable then RunPartial("a host was left unrecoverable") else o
  }

  // ---------------------------------------------------------------------------
  // The rollback contract

  predicate Distinct(s: seq<Host>) {
    forall i, j | 0 <= i < j < |s| :: s[i] != s[j]
  }

  /** What the deploy starts from: a fresh run state and a truthful ledger. */
  ghost predicate Ready(plan: Plan, s0: Deploy) {
    && Distinct(plan.inventory)
    && (forall h :: h in plan.inventory ==> h in s0.hosts && LedgerTrue(s0.hosts[h], Lookup(plan.ledger, h)))
    && !s0.unrecoverable && s0.staged == map[]
  }

  function LeftOf(plan: Plan, s0: Deploy, h: Host): HostState
    requires h in s0.hosts
  {
    Left(s0.hosts[h], Lookup(plan.stage, h), Lookup(plan.advance, h).GetOr(STEADY))
  }

  /** The step's own record forgets an effect one of its failing calls had on this host. */
  predicate Damages(plan: Plan, s0: Deploy, failed: nat, h: Host)
    requires h in s0.hosts
  {
    && 3 <= failed < 3 + |Batches(plan)| && h in Batches(plan)[failed - 3]
    && !Remembers(s0.hosts[h], Lookup(plan.stage, h), Lookup(plan.advance, h).GetOr(STEADY))
  }

  /**
   A deploy that fails at step `failed` forgets an effect: the migration failed
   after it moved the database, or a host of the failing batch was drained or
   activated by a call that then reported an error.
   */
  predicate Forgets(plan: Plan, s0: Deploy, failed: nat) {
    || (failed == 2 && plan.readRevision && plan.up.FailsLate? && Landed(plan, s0.db) != s0.db)
    || exists h | h in s0.hosts :: Damages(plan, s0, failed, h)
  }

  /** Every host is exactly as it was, but for what the failing step forgot about it. */
  ghost predicate IsLeft(plan: Plan, s0: Deploy, failed: nat, hosts: map<Host, HostState>) {
    && hosts.Keys == s0.hosts.Keys
    && forall h :: h in s0.hosts ==> hosts[h] == if Damages(plan, s0, failed, h) then LeftOf(plan, s0, h) else s0.hosts[h]
  }

  /** How many batches are done once `k` steps are. */
  function DoneBatches(plan: Plan, k: nat): (b: nat)
    ensures b <= |Batches(plan)|
  {
    if k < 3 then 0 else if k - 3 <= |Batches(plan)| then k - 3 else |Batches(plan)|
  }

  function Touched(plan: Plan, k: nat): seq<Host> {
    Concat(Batches(plan)[..DoneBatches(plan, k)])
  }

  ghost predicate HostFits(plan: Plan, s0: Deploy, k: nat, s: Deploy, h: Host)
    requires h in s0.hosts && h in s.hosts
  {
    if h in Touched(plan, k) then
      var (state, progress, ok) := Advance(s0.hosts[h], Lookup(plan.stage, h), Lookup(plan.advance, h).GetOr(STEADY));
      ok && s.hosts[h] == state && h in s.progress && s.progress[h] == progress
    else s.hosts[h] == s0.hosts[h]
  }

  ghost predicate DbFits(plan: Plan, s0: Deploy, k: nat, s: Deploy) {
    if k < 3 then s.db == s0.db
    else s.previous == s0.db && s.db == Landed(plan, s0.db) && s.next == if plan.upTo.Some? then plan.upTo else s0.db
  }

  ghost predicate StageFits(plan: Plan, s: Deploy) {
    && (forall h :: h in plan.inventory ==> h in plan.stage && h in s.staged && s.staged[h] == plan.stage[h])
    && s.staged.Keys == (set h | h in plan.inventory)
  }

  /** Exactly the first `k` steps have taken effect, and no failure was seen. */
  ghost predicate Up(plan: Plan, s0: Deploy, k: nat, s: Deploy) {
    && s.hosts.Keys == s0.hosts.Keys
    && (forall h :: h in s0.hosts ==> HostFits(plan, s0, k, s, h))
    && (k >= 2 ==> StageFits(plan, s))
    && DbFits(plan, s0, k, s)
    && !s.unrecoverable
  }

  /**
   Step `failed` failed and the steps from `k` on have been undone: what the
   failing step forgot is still wrong, everything else is at level `k`.
   */
  ghost predicate Down(plan: Plan, s0: Deploy, failed: nat, k: nat, s: Deploy) {
    && k <= failed
    && (s.unrecoverable
        || (&& s.hosts.Keys == s0.hosts.Keys
            && (forall h :: h in s0.hosts ==>
                  if Damages(plan, s0, failed, h) then s.hosts[h] == LeftOf(plan, s0, h) else HostFits(plan, s0, k, s, h))
            && (if failed == 2 && Forgets(plan, s0, 2) then s.db != s0.db else DbFits(plan, s0, k, s))))
  }

  /** A batch's hosts are inventory hosts that no earlier batch holds. */
  lemma BatchIsNew(plan: Plan, i: nat, h: Host)
    requires Distinct(plan.inventory) && i < |Batches(plan)| && h in Batches(plan)[i]
    ensures h in plan.inventory && h !in Touched(plan, 3 + i)
    ensures forall g :: g in Touched(plan, 4 + i) <==> g in Touched(plan, 3 + i) || g in Batches(plan)[i]
  {
    ConcatAt(Batches(plan), i);
    ConcatUpTo(Batches(plan), i);
    PartIsNew(Concat(Batches(plan)[..i]), Batches(plan)[i], Concat(Batches(plan)[i + 1..]), h);
  }

  lemma PartIsNew(before: seq<Host>, part: seq<Host>, after: seq<Host>, h: Host)
    requires Distinct(before + part + after) && h in part
    ensures h in before + part + after && h !in before
  {
    var all := before + part + after;
    var j :| 0 <= j < |part| && part[j] == h;
    assert all[|before| + j] == h;
    assert forall m :: 0 <= m < |before| ==> all[m] == before[m];
  }

  /** The next batch's hosts are still as the deploy found them. */
  lemma BatchUntouched(plan: Plan, s0: Deploy, i: nat, s: Deploy, h: Host)
    requires Ready(plan, s0) && i < |Batches(plan)| && Up(plan, s0, 3 + i, s) && h in s0.hosts && h in Batches(plan)[i]
    ensures h !in Touched(plan, 3 + i) && h in Touched(plan, 4 + i) && h in plan.inventory
    ensures AdvanceOf(plan, s, h) == Advance(s0.hosts[h], Lookup(plan.stage, h), Lookup(plan.advance, h).GetOr(STEADY))
  {
    BatchIsNew(plan, i, h);
    assert HostFits(plan, s0, 3 + i, s, h);
  }

  lemma BatchClimbs(plan: Plan, s0: Deploy, i: nat, s: Deploy, h: Host)
    requires Ready(plan, s0) && i < |Batches(plan)| && Up(plan, s0, 3 + i, s) && h in s0.hosts
    requires AllAdvance(plan, Batches(plan)[i], s)
    ensures HostFits(plan, s0, 4 + i, Advanced(plan, Batches(plan)[i], s), h)
  {
    assert HostFits(plan, s0, 3 + i, s, h);
    if h in Batches(plan)[i] {
      BatchUntouched(plan, s0, i, s, h);
    } else {
      NotInBatch(plan, i, h);
    }
  }

  lemma BatchFallsBack(plan: Plan, s0: Deploy, i: nat, s: Deploy, h: Host)
    requires Ready(plan, s0) && i < |Batches(plan)| && Up(plan, s0, 3 + i, s) && h in s0.hosts
    requires AllRestore(plan, Batches(plan)[i], Advanced(plan, Batches(plan)[i], s), plan.undoNow)
    ensures var back := Restored(plan, Batches(plan)[i], Advanced(plan, Batches(plan)[i], s), plan.undoNow);
            if Damages(plan, s0, 3 + i, h) then back.hosts[h] == LeftOf(plan, s0, h) else HostFits(plan, s0, 3 + i, back, h)
  {
    assert HostFits(plan, s0, 3 + i, s, h);
    if h in Batches(plan)[i] {
      var moved := Advanced(plan, Batches(plan)[i], s);
      BatchUntouched(plan, s0, i, s, h);
      assert RestoreOf(plan, moved, h, plan.undoNow).1;
      RestoreUndoes(s0.hosts[h], Lookup(plan.stage, h), Lookup(plan.ledger, h),
                    Lookup(plan.advance, h).GetOr(STEADY), Lookup(plan.undoNow, h).GetOr(CALM));
    }
  }

  lemma BatchDone(plan: Plan, s0: Deploy, i: nat, s: Deploy)
    requires Ready(plan, s0) && i < |Batches(plan)| && Up(plan, s0, 3 + i, s)
    requires AllAdvance(plan, Batches(plan)[i], s)
    ensures Up(plan, s0, 4 + i, Advanced(plan, Batches(plan)[i], s))
  {
    var moved := Advanced(plan, Batches(plan)[i], s);
    assert moved.hosts.Keys == s.hosts.Keys;
    assert StageFits(plan, moved) && DbFits(plan, s0, 4 + i, moved);
    forall h | h in s0.hosts ensures HostFits(plan, s0, 4 + i, moved, h) {
      BatchClimbs(plan, s0, i, s, h);
    }
  }

  lemma BatchFailed(plan: Plan, s0: Deploy, i: nat, s: Deploy)
    requires Ready(plan, s0) && i < |Batches(plan)| && Up(plan, s0, 3 + i, s)
    requires AllRestore(plan, Batches(plan)[i], Advanced(plan, Batches(plan)[i], s), plan.undoNow)
    ensures Down(plan, s0, 3 + i, 3 + i, Restored(plan, Batches(plan)[i], Advanced(plan, Batches(plan)[i], s), plan.undoNow))
  {
    var back := Restored(plan, Batches(plan)[i], Advanced(plan, Batches(plan)[i], s), plan.undoNow);
    assert back.hosts.Keys == s.hosts.Keys;
    assert DbFits(plan, s0, 3 + i, back);
    forall h | h in s0.hosts
      ensures if Damages(plan, s0, 3 + i, h) then back.hosts[h] == LeftOf(plan, s0, h) else HostFits(plan, s0, 3 + i, back, h)
    {
      BatchFallsBack(plan, s0, i, s, h);
    }
  }

  /** Advancing the next batch, from a state where exactly the earlier ones have. */
  lemma RunBatchKeeps(plan: Plan, s0: Deploy, i: nat, s: Deploy)
    requires Ready(plan, s0) && i < |Batches(plan)| && Up(plan, s0, 3 + i, s)
    ensures var e := RunBatch(plan, Batches(plan)[i], s);
            if e.Done? then Up(plan, s0, 4 + i, e.state) else Down(plan, s0, 3 + i, 3 + i, e.state)
  {
    var batch := Batches(plan)[i];
    if AllAdvance(plan, batch, s) {
      BatchDone(plan, s0, i, s);
    } else if AllRestore(plan, batch, Advanced(plan, batch, s), plan.undoNow) {
      BatchFailed(plan, s0, i, s);
    }
  }

  lemma NotInBatch(plan: Plan, i: nat, h: Host)
    requires Distinct(plan.inventory) && i < |Batches(plan)|
    ensures h !in Batches(plan)[i] ==> (h in Touched(plan, 4 + i) <==> h in Touched(plan, 3 + i))
  {
    var bs := Batches(plan);
    assert bs[..i + 1] == bs[..i] + [bs[i]];
    ConcatSplit(bs[..i], [bs[i]]);
    assert Concat([bs[i]]) == bs[i] + Concat([]);
  }

  lemma EarlierIsTouched(plan: Plan, i: nat, j: nat, h: Host)
    requires i < j <= |Batches(plan)| && h in Batches(plan)[i]
    ensures h in Touched(plan, 3 + j)
  {
    var bs := Batches(plan)[..j];
    assert bs == bs[..i] + ([bs[i]] + bs[i + 1..]);
    ConcatSplit(bs[..i], [bs[i]] + bs[i + 1..]);
    ConcatSplit([bs[i]], bs[i + 1..]);
    assert Concat([bs[i]]) == bs[i] + Concat([]);
  }

  /** The failing batch's hosts are not hosts of an earlier batch. */
  lemma EarlierBatchUndamaged(plan: Plan, s0: Deploy, failed: nat, i: nat, h: Host)
    requires Ready(plan, s0) && h in s0.hosts && 4 + i <= failed && i < |Batches(plan)| && h in Batches(plan)[i]
    ensures !Damages(plan, s0, failed, h)
  {
    if Damages(plan, s0, failed, h) {
      BatchIsNew(plan, failed - 3, h);
      EarlierIsTouched(plan, i, failed - 3, h);
      assert false;
    }
  }

  lemma UndoBatchKeeps(plan: Plan, s0: Deploy, failed: nat, i: nat, s: Deploy)
    requires Ready(plan, s0) && i < |Batches(plan)|
    requires Down(plan, s0, failed, 4 + i, s) && UndoBatch(plan, Batches(plan)[i], s).Done?
    ensures Down(plan, s0, failed, 3 + i, UndoBatch(plan, Batches(plan)[i], s).state)
  {
    var batch := Batches(plan)[i];
    var e := UndoBatch(plan, batch, s);
    if !s.unrecoverable {
      forall h | h in s0.hosts
        ensures if Damages(plan, s0, failed, h) then e.state.hosts[h] == LeftOf(plan, s0, h) else HostFits(plan, s0, 3 + i, e.state, h)
      {
        if h in batch {
          EarlierBatchUndamaged(plan, s0, failed, i, h);
          assert HostFits(plan, s0, 4 + i, s, h);
          BatchIsNew(plan, i, h);
          assert RestoreOf(plan, s, h, plan.undoLater).1;
          RestoreUndoes(s0.hosts[h], Lookup(plan.stage, h), Lookup(plan.ledger, h),
                        Lookup(plan.advance, h).GetOr(STEADY), Lookup(plan.undoLater, h).GetOr(CALM));
        } else {
          NotInBatch(plan, i, h);
        }
      }
    }
  }

  /** A step that moves no host carries the fleet's part of the level along. */
  lemma HostsCarry(plan: Plan, s0: Deploy, j: nat, k: nat, s: Deploy, t: Deploy)
    requires DoneBatches(plan, j) == DoneBatches(plan, k) && s.hosts == t.hosts && s.progress == t.progress
    requires s.hosts.Keys == s0.hosts.Keys && forall h :: h in s0.hosts ==> HostFits(plan, s0, j, s, h)
    ensures forall h :: h in s0.hosts ==> HostFits(plan, s0, k, t, h)
  {
    forall h | h in s0.hosts ensures HostFits(plan, s0, k, t, h) {
      assert HostFits(plan, s0, j, s, h);
    }
  }

  lemma CheckFits(plan: Plan, s0: Deploy, k: nat, s: Deploy, ok: bool)
    requires Up(plan, s0, k, s) && DoneBatches(plan, k) == DoneBatches(plan, k + 1) && k != 1 && k != 2
    requires k < 3 || k == 3 + |Batches(plan)|
    ensures var e := Check(ok, s);
            if e.Done? then Up(plan, s0, k + 1, e.state) else Down(plan, s0, k, k, e.state)
  {
    HostsCarry(plan, s0, k, k + 1, s, s);
  }

  lemma FetchFits(plan: Plan, s0: Deploy, s: Deploy)
    requires Up(plan, s0, 1, s)
    ensures var e := Fetch(plan, s);
            if e.Done? then Up(plan, s0, 2, e.state) else Down(plan, s0, 1, 1, e.state)
  {
    HostsCarry(plan, s0, 1, 2, s, Fetch(plan, s).state);
  }

  lemma MigrateFits(plan: Plan, s0: Deploy, s: Deploy)
    requires Up(plan, s0, 2, s)
    ensures var e := Migrate(plan, s);
            if e.Done? then Up(plan, s0, 3, e.state) else Down(plan, s0, 2, 2, e.state)
  {
    HostsCarry(plan, s0, 2, 3, s, Migrate(plan, s).state);
    HostsCarry(plan, s0, 2, 2, s, Migrate(plan, s).state);
  }

  lemma ForwardFits(plan: Plan, s0: Deploy, k: nat, s: Deploy)
    requires Ready(plan, s0) && k < |Steps(plan)| && Up(plan, s0, k, s)
    ensures var e := Steps(plan)[k].forward(s);
            if e.Done? then Up(plan, s0, k + 1, e.state) else Down(plan, s0, k, k, e.state)
  {
    var e := Steps(plan)[k].forward(s);
    if k == 0 {
      CheckFits(plan, s0, 0, s, plan.preflight);
    } else if k == 1 {
      FetchFits(plan, s0, s);
    } else if k == 2 {
      MigrateFits(plan, s0, s);
    } else if k < |Steps(plan)| - 1 {
      assert e == RunBatch(plan, Batches(plan)[k - 3], s);
      RunBatchKeeps(plan, s0, k - 3, s);
    } else {
      assert e == Check(plan.verify, s);
      CheckFits(plan, s0, k, s, plan.verify);
    }
  }

  /** Undoing a step that moved no host. */
  lemma PlainUndoFits(plan: Plan, s0: Deploy, failed: nat, k: nat, s: Deploy, t: Deploy)
    requires Down(plan, s0, failed, k + 1, s) && !s.unrecoverable && DoneBatches(plan, k) == DoneBatches(plan, k + 1)
    requires s.hosts == t.hosts && s.progress == t.progress
    requires if failed == 2 && Forgets(plan, s0, 2) then t.db == s.db else DbFits(plan, s0, k, t)
    ensures Down(plan, s0, failed, k, t)
  {
    forall h | h in s0.hosts
      ensures if Damages(plan, s0, failed, h) then t.hosts[h] == LeftOf(plan, s0, h) else HostFits(plan, s0, k, t, h)
    {
      assert Damages(plan, s0, failed, h) || HostFits(plan, s0, k + 1, s, h);
    }
  }

  lemma BackwardFits(plan: Plan, s0: Deploy, failed: nat, k: nat, s: Deploy)
    requires Ready(plan, s0) && k < |Steps(plan)| && failed < |Steps(plan)|
    requires Down(plan, s0, failed, k + 1, s) && Steps(plan)[k].compensate(s).Done?
    ensures Down(plan, s0, failed, k, Steps(plan)[k].compensate(s).state)
  {
    var e := Steps(plan)[k].compensate(s);
    if 3 <= k {
      assert e == UndoBatch(plan, Batches(plan)[k - 3], s);
      UndoBatchKeeps(plan, s0, failed, k - 3, s);
    } else {
      assert e == if k == 2 then UndoMigrate(plan, s) else Nothing(s);
      if !s.unrecoverable {
        PlainUndoFits(plan, s0, failed, k, s, e.state);
      }
    }
  }

  /** Up to the failing step nothing is undone; from it on everything before is. */
  ghost predicate Climbing(plan: Plan, s0: Deploy, failed: nat, k: nat, s: Deploy) {
    k <= |Steps(plan)| && Up(plan, s0, k, s) && FailsAt(Steps(plan), k, s) in {None, Some(failed)}
  }

  lemma StepFits(plan: Plan, s0: Deploy, failed: nat, k: nat, s: Deploy)
    requires Ready(plan, s0) && k < |Steps(plan)| && failed < |Steps(plan)|
    ensures Climbing(plan, s0, failed, k, s) ==>
              var e := Steps(plan)[k].forward(s);
              if e.Done? then Climbing(plan, s0, failed, k + 1, e.state) else Down(plan, s0, failed, k, e.state)
    ensures Down(plan, s0, failed, k + 1, s) ==>
              var e := Steps(plan)[k].compensate(s); e.Done? ==> Down(plan, s0, failed, k, e.state)
  {
    if Climbing(plan, s0, failed, k, s) {
      ForwardFits(plan, s0, k, s);
    }
    if Down(plan, s0, failed, k + 1, s) && Steps(plan)[k].compensate(s).Done? {
      BackwardFits(plan, s0, failed, k, s);
    }
  }

  lemma StepsAreCompensable(plan: Plan, s0: Deploy, failed: nat)
    requires Ready(plan, s0) && failed < |Steps(plan)|
    ensures Compensable(Steps(plan),
                        (k: nat, s: Deploy) => Climbing(plan, s0, failed, k, s),
                        (k: nat, s: Deploy) => Down(plan, s0, failed, k, s))
  {
    var steps := Steps(plan);
    var up := (k: nat, s: Deploy) => Climbing(plan, s0, failed, k, s);
    var down := (k: nat, s: Deploy) => Down(plan, s0, failed, k, s);
    forall k, s | 0 <= k < |steps|
      ensures ForwardKeeps(steps[k], k, up, down, s) && CompensateKeeps(steps[k], k, down, s)
    {
      StepFits(plan, s0, failed, k, s);
    }
  }

  /** What a committed deploy leaves on one host. */
  ghost predicate Advances(before: HostState, after: HostState, artifact: Artifact) {
    after == HostState(Some(artifact), Some(artifact), before.pool)
  }

  /**
   The rollback contract, for every fleet, batch size, fault plan and store
   schedule. A deploy that reports a rollback left every host and the database
   exactly as they were if and only if the step it failed at forgot nothing, and
   otherwise each host exactly as `LeftOf` says. A
   deploy that reports a commit left every inventory host live on its staged
   artifact with its old membership, every other host alone, and the database on
   the new revision.
   */
  lemma DeployIsAtomic(plan: Plan, s0: Deploy, store: Store)
    requires Ready(plan, s0)
    ensures var (end, r) := Execute(Steps(plan), 0, Idle, Run(s0, store, []));
            var s := end.state;
            var failed := FailsAt(Steps(plan), 0, s0);
            && (r.Ok? && Finalize(r.value, s).RunRolledBack? ==>
                  && failed.Some? && IsLeft(plan, s0, failed.value, s.hosts)
                  && (s.hosts == s0.hosts && s.db == s0.db <==> !Forgets(plan, s0, failed.value)))
            && (r.Ok? && Finalize(r.value, s).RunCommitted? ==>
                  && failed.None?
                  && s.hosts.Keys == s0.hosts.Keys
                  && (forall h :: h in plan.inventory ==> h in plan.stage)
                  && s.staged == (map h | h in plan.inventory :: plan.stage[h])
                  && (forall h :: h in s0.hosts ==>
                        if h in plan.inventory then Advances(s0.hosts[h], s.hosts[h], plan.stage[h])
                        else s.hosts[h] == s0.hosts[h])
                  && s.db == (if plan.ownsDatabase && plan.upTo.Some? then plan.upTo else s0.db)
                  && s.next == (if plan.upTo.Some? then plan.upTo else s0.db))
  {
    var steps := Steps(plan);
    var failed := FailsAt(steps, 0, s0);
    var bad := failed.GetOr(0);
    var up := (k: nat, s: Deploy) => Climbing(plan, s0, bad, k, s);
    var down := (k: nat, s: Deploy) => Down(plan, s0, bad, k, s);
    StepsAreCompensable(plan, s0, bad);
    assert Concat(Batches(plan)[..0]) == [];
    assert up(0, s0);
    Atomicity(steps, up, down, 0, Idle, Run(s0, store, []));
    OutcomeFollowsSteps(steps, 0, Idle, Run(s0, store, []));
    var (end, r) := Execute(steps, 0, Idle, Run(s0, store, []));
    var s := end.state;
    if r.Ok? && Finalize(r.value, s).RunRolledBack? {
      assert Down(plan, s0, bad, 0, s);
      BottomIsExact(plan, s0, bad, s);
    }
    if r.Ok? && Finalize(r.value, s).RunCommitted? {
      TopIsLive(plan, s0, s);
    }
  }

  lemma BottomIsExact(plan: Plan, s0: Deploy, failed: nat, s: Deploy)
    requires Down(plan, s0, failed, 0, s) && !s.unrecoverable
    ensures IsLeft(plan, s0, failed, s.hosts)
    ensures s.hosts == s0.hosts && s.db == s0.db <==> !Forgets(plan, s0, failed)
  {
    assert Concat(Batches(plan)[..0]) == [];
    forall h | h in s0.hosts
      ensures s.hosts[h] == if Damages(plan, s0, failed, h) then LeftOf(plan, s0, h) else s0.hosts[h]
      ensures Damages(plan, s0, failed, h) ==> s.hosts[h] != s0.hosts[h]
    {
      assert Damages(plan, s0, failed, h) || HostFits(plan, s0, 0, s, h);
    }
  }

  lemma StagedIs(plan: Plan, s: Deploy)
    requires StageFits(plan, s)
    ensures (forall h :: h in plan.inventory ==> h in plan.stage) && s.staged == map h | h in plan.inventory :: plan.stage[h]
  {
  }

  lemma AllTouched(plan: Plan, k: nat)
    requires k >= 3 + |Batches(plan)|
    ensures Touched(plan, k) == plan.inventory
  {
    assert Batches(plan)[..|Batches(plan)|] == Batches(plan);
  }

  lemma TopIsLive(plan: Plan, s0: Deploy, s: Deploy)
    requires Ready(plan, s0) && Up(plan, s0, |Steps(plan)|, s)
    ensures forall h :: h in plan.inventory ==> h in plan.stage
    ensures s.staged == map h | h in plan.inventory :: plan.stage[h]
    ensures forall h :: h in s0.hosts ==>
              if h in plan.inventory then Advances(s0.hosts[h], s.hosts[h], plan.stage[h])
              else s.hosts[h] == s0.hosts[h]
  {
    var n := |Steps(plan)|;
    StagedIs(plan, s);
    AllTouched(plan, n);
    forall h | h in s0.hosts
      ensures if h in plan.inventory then Advances(s0.hosts[h], s.hosts[h], plan.stage[h])
              else s.hosts[h] == s0.hosts[h]
    {
      assert HostFits(plan, s0, n, s, h);
    }
  }
}
