/**
 The saga driver of `fraisier-saga`: an ordered list of compensable steps run
 over a state store whose every write may fail.

 A step's forward action and its compensation are functions of the run state, so
 a fault plan is part of the step: quantifying over steps quantifies over every
 pattern of failures. Each action runs at most once in a run.
 */
module Saga {
  import opened Basics

  /** What one action leaves behind: it always leaves a state, even when it fails. */
  datatype Effect<R> = Done(state: R) | Failed(state: R, message: string)

  datatype Step<!R> = Step(name: string, forward: R -> Effect<R>, compensate: R -> Effect<R>)

  datatype Lifecycle =
    | Idle
    | Running(step: string)
    | Committed
    | Compensating(step: string)
    | RolledBack
    | PartialRollback(reason: string)

  datatype Outcome =
    | RunCommitted
    | RunRolledBack(failedStep: string, reason: string)
    | RunPartial(reason: string)

  /** An infrastructure failure: the store refused a write, or the lock. */
  datatype StoreError = EventWrite | StateWrite | LockHeld | LockRelease

  datatype Transition = Transition(from: Lifecycle, to: Lifecycle)

  /** One observable action of a run, in order. */
  datatype Action = Forward(step: nat, ok: bool) | Compensate(step: nat, ok: bool)

  /**
   The state store as one run sees it. `faults` is the fault schedule: each write
   consumes one entry and fails when it is `false`; past its end writes succeed.
   */
  datatype Store = Store(events: seq<Transition>, states: seq<Lifecycle>, faults: seq<bool>) {
    function Accepts(): bool {
      faults == [] || faults[0]
    }

    function Spent(): Store {
      this.(faults := if faults == [] then [] else faults[1..])
    }
  }

  /** `transition`: append the event, then persist the new state. */
  function Record(store: Store, from: Lifecycle, to: Lifecycle): (r: (Store, Option<StoreError>)) {
    if !store.Accepts() then (store.Spent(), Some(EventWrite))
    else
      var logged := store.Spent().(events := store.events + [Transition(from, to)]);
      if !logged.Accepts() then (logged.Spent(), Some(StateWrite))
      else (logged.Spent().(states := logged.states + [to]), None)
  }

  /** A run in progress: the caller's state, the store and what happened so far. */
  datatype Run<R> = Run(state: R, store: Store, actions: seq<Action>)

  type Ending<R> = (Run<R>, Result<Outcome, StoreError>)

  function CompensationReason(step: string, message: string): string {
    "compensation for '" + step + "' failed: " + message
  }

  /** `rollback`: compensate steps `k-1 .. 0`, stopping at the first that fails. */
  function Rollback<R>(steps: seq<Step<R>>, k: nat, from: Lifecycle, failed: string, why: string, run: Run<R>)
    : (r: Ending<R>)
    requires k <= |steps|
  {
    if k == 0 then
      var (store, err) := Record(run.store, from, RolledBack);
      (run.(store := store), if err.Some? then Err(err.value) else Ok(RunRolledBack(failed, why)))
    else
      var to := Compensating(steps[k - 1].name);
      var (store, err) := Record(run.store, from, to);
      if err.Some? then (run.(store := store), Err(err.value))
      else
        match steps[k - 1].compensate(run.state)
        case Done(state) =>
          Rollback(steps, k - 1, to, failed, why,
                   Run(state, store, run.actions + [Compensate(k - 1, true)]))
        case Failed(state, message) =>
          var reason := CompensationReason(steps[k - 1].name, message);
          var (store', err') := Record(store, to, PartialRollback(reason));
          (Run(state, store', run.actions + [Compensate(k - 1, false)]),
           if err'.Some? then Err(err'.value) else Ok(RunPartial(reason)))
  }

  /** `execute` from step `k` on: the first `k` steps have completed. */
  function Execute<R>(steps: seq<Step<R>>, k: nat, from: Lifecycle, run: Run<R>): (r: Ending<R>)
    requires k <= |steps|
    decreases |steps| - k
  {
    if k == |steps| then
      var (store, err) := Record(run.store, from, Committed);
      (run.(store := store), if err.Some? then Err(err.value) else Ok(RunCommitted))
    else
      var to := Running(steps[k].name);
      var (store, err) := Record(run.store, from, to);
      if err.Some? then (run.(store := store), Err(err.value))
      else
        match steps[k].forward(run.state)
        case Done(state) =>
          Execute(steps, k + 1, to, Run(state, store, run.actions + [Forward(k, true)]))
        case Failed(state, message) =>
          Rollback(steps, k, to, steps[k].name, message,
                   Run(state, store, run.actions + [Forward(k, false)]))
  }

  // ---------------------------------------------------------------------------
  // The loops of the driver, proved against the functions above.

  method RunRollback<R>(steps: seq<Step<R>>, k: nat, failed: string, why: string, run: Run<R>)
    returns (last: Run<R>, r: Result<Outcome, StoreError>)
    requires k <= |steps|
    ensures (last, r) == Rollback(steps, k, Running(failed), failed, why, run)
  {
    last := run;
    var from := Running(failed);
    var i := k;
    while i > 0
      invariant 0 <= i <= k
      invariant Rollback(steps, k, Running(failed), failed, why, run) == Rollback(steps, i, from, failed, why, last)
    {
      var to := Compensating(steps[i - 1].name);
      var (store, err) := Record(last.store, from, to);
      if err.Some? {
        last := last.(store := store);
        return last, Err(err.value);
      }
      var effect := steps[i - 1].compensate(last.state);
      if effect.Failed? {
        var reason := CompensationReason(steps[i - 1].name, effect.message);
        var (store', err') := Record(store, to, PartialRollback(reason));
        last := Run(effect.state, store', last.actions + [Compensate(i - 1, false)]);
        return last, if err'.Some? then Err(err'.value) else Ok(RunPartial(reason));
      }
      last := Run(effect.state, store, last.actions + [Compensate(i - 1, true)]);
      from := to;
      i := i - 1;
    }
    var (store, err) := Record(last.store, from, RolledBack);
    last := last.(store := store);
    r := if err.Some? then Err(err.value) else Ok(RunRolledBack(failed, why));
  }

  method RunExecute<R>(steps: seq<Step<R>>, run: Run<R>) returns (last: Run<R>, r: Result<Outcome, StoreError>)
    ensures (last, r) == Execute(steps, 0, Idle, run)
  {
    last := run;
    var from := Idle;
    var k := 0;
    while k < |steps|
      invariant 0 <= k <= |steps|
      invariant Execute(steps, 0, Idle, run) == Execute(steps, k, from, last)
    {
      var to := Running(steps[k].name);
      var (store, err) := Record(last.store, from, to);
      if err.Some? {
        last := last.(store := store);
        return last, Err(err.value);
      }
      var effect := steps[k].forward(last.state);
      if effect.Failed? {
        last := Run(effect.state, store, last.actions + [Forward(k, false)]);
        last, r := RunRollback(steps, k, steps[k].name, effect.message, last);
        return;
      }
      last := Run(effect.state, store, last.actions + [Forward(k, true)]);
      from := to;
      k := k + 1;
    }
    var (store, err) := Record(last.store, from, Committed);
    last := last.(store := store);
    r := if err.Some? then Err(err.value) else Ok(RunCommitted);
  }

  /**
   The saga object: one lock per key, the run state threaded through every step.
   `held` is the lock other writers see.
   */
  class Driver<R> {
    var store: Store
    var held: bool

    constructor (store: Store)
      ensures this.store == store && !held
    {
      this.store := store;
      held := false;
    }

    /**
     `run_inner`: the lock is taken first, and it is released on every ending of
     `execute`. `unlockOk` says whether the release itself worked; a run's own
     error is preferred over a release error.
     */
    method RunWithState(steps: seq<Step<R>>, state: R, unlockOk: bool)
      returns (last: Run<R>, r: Result<Outcome, StoreError>)
      modifies this
      ensures old(held) ==> r == Err(LockHeld) && last.state == state && last.actions == []
                            && store == old(store) && held
      ensures !old(held) ==>
                var (end, verdict) := Execute(steps, 0, Idle, Run(state, old(store), []));
                && last == end
                && store == end.store
                && held == !unlockOk
                && r == if !unlockOk && verdict.Ok? then Err(LockRelease) else verdict
    {
      if held {
        return Run(state, store, []), Err(LockHeld);
      }
      held := true;
      last, r := RunExecute(steps, Run(state, store, []));
      store := last.store;
      if unlockOk {
        held := false;
      } else if r.Ok? {
        r := Err(LockRelease);
      }
    }
  }

  // ---------------------------------------------------------------------------
  // What every run keeps.

  /** The forward actions `0..k`, all successful. */
  function Forwards(k: nat): (s: seq<Action>)
    ensures |s| == k
    ensures forall i :: 0 <= i < k ==> s[i] == Forward(i, true)
  {
    seq(k, (i: nat) => Forward(i, true))
  }

  /** The successful compensations of steps `k-1` down to `j`. */
  function Undos(k: nat, j: nat): (s: seq<Action>)
    requires j <= k
    ensures |s| == k - j
    ensures forall i :: 0 <= i < k - j ==> s[i] == Compensate(k - 1 - i, true)
  {
    seq(k - j, i requires 0 <= i < k - j => Compensate(k - 1 - i, true))
  }

  /**
   Which actions a run may take, by how it ended. A run that stopped on a store
   error stopped somewhere along one of the other shapes.
   */
  ghost predicate ActionsFit(n: nat, actions: seq<Action>, r: Result<Outcome, StoreError>) {
    match r
    case Ok(RunCommitted) => actions == Forwards(n)
    case Ok(RunRolledBack(_, _)) =>
      exists k :: 0 <= k < n && actions == Forwards(k) + [Forward(k, false)] + Undos(k, 0)
    case Ok(RunPartial(_)) =>
      exists k, j :: 0 <= j < k < n
                     && actions == Forwards(k) + [Forward(k, false)] + Undos(k, j + 1) + [Compensate(j, false)]
    case Err(_) =>
      || (exists k :: 0 <= k <= n && actions == Forwards(k))
      || (exists k, j :: 0 <= j <= k < n && actions == Forwards(k) + [Forward(k, false)] + Undos(k, j))
      || (exists k, j :: 0 <= j < k < n
                         && actions == Forwards(k) + [Forward(k, false)] + Undos(k, j + 1) + [Compensate(j, false)])
  }

  lemma {:induction false} RollbackActions<R>(steps: seq<Step<R>>, k: nat, j: nat, from: Lifecycle, failed: string, why: string, run: Run<R>)
    requires j <= k < |steps|
    requires run.actions == Forwards(k) + [Forward(k, false)] + Undos(k, j)
    ensures var (end, r) := Rollback(steps, j, from, failed, why, run);
            ActionsFit(|steps|, end.actions, r) && (r.Ok? ==> !r.value.RunCommitted?)
    decreases j
  {
    if j > 0 {
      var to := Compensating(steps[j - 1].name);
      var (store, err) := Record(run.store, from, to);
      if err.None? {
        match steps[j - 1].compensate(run.state) {
          case Done(state) =>
            assert Undos(k, j - 1) == Undos(k, j) + [Compensate(j - 1, true)];
            var next := Run(state, store, run.actions + [Compensate(j - 1, true)]);
            assert next.actions == Forwards(k) + [Forward(k, false)] + Undos(k, j - 1);
            RollbackActions(steps, k, j - 1, to, failed, why, next);
          case Failed(state, message) =>
            var last := run.actions + [Compensate(j - 1, false)];
            assert last == Forwards(k) + [Forward(k, false)] + Undos(k, (j - 1) + 1) + [Compensate(j - 1, false)];
        }
      }
    }
  }

  lemma {:induction false} ExecuteActions<R>(steps: seq<Step<R>>, k: nat, from: Lifecycle, run: Run<R>)
    requires k <= |steps|
    requires run.actions == Forwards(k)
    ensures var (end, r) := Execute(steps, k, from, run);
            ActionsFit(|steps|, end.actions, r)
    decreases |steps| - k
  {
    if k < |steps| {
      var to := Running(steps[k].name);
      var (store, err) := Record(run.store, from, to);
      if err.None? {
        match steps[k].forward(run.state) {
          case Done(state) =>
            assert Forwards(k + 1) == Forwards(k) + [Forward(k, true)];
            ExecuteActions(steps, k + 1, to, Run(state, store, run.actions + [Forward(k, true)]));
          case Failed(state, message) =>
            var next := Run(state, store, run.actions + [Forward(k, false)]);
            assert next.actions == Forwards(k) + [Forward(k, false)] + Undos(k, k);
            RollbackActions(steps, k, k, to, steps[k].name, message, next);
        }
      }
    }
  }

  /**
   The driver's order contract, for every step list, every fault plan and every
   store schedule: forwards in order, compensations of exactly the completed
   steps in reverse, never the step that failed.
   */
  lemma RunActions<R>(steps: seq<Step<R>>, run: Run<R>)
    requires run.actions == []
    ensures var (end, r) := Execute(steps, 0, Idle, run);
            ActionsFit(|steps|, end.actions, r)
  {
    assert run.actions == Forwards(0);
    ExecuteActions(steps, 0, Idle, run);
  }

  /** The log is a path: each transition starts where the previous one ended. */
  ghost predicate IsPath(events: seq<Transition>, start: Lifecycle) {
    && (events != [] ==> events[0].from == start)
    && forall i :: 0 < i < |events| ==> events[i].from == events[i - 1].to
  }

  function EndOf(events: seq<Transition>, start: Lifecycle): Lifecycle {
    if events == [] then start else events[|events| - 1].to
  }

  function Targets(events: seq<Transition>): (s: seq<Lifecycle>)
    ensures |s| == |events|
    ensures forall i :: 0 <= i < |events| ==> s[i] == events[i].to
  {
    seq(|events|, i requires 0 <= i < |events| => events[i].to)
  }

  function Final(o: Outcome): Lifecycle {
    match o
    case RunCommitted => Committed
    case RunRolledBack(_, _) => RolledBack
    case RunPartial(reason) => PartialRollback(reason)
  }

  /** Events and states agree, except that a failed state write leaves one extra event. */
  ghost predicate LogFits(store: Store, r: Result<Outcome, StoreError>) {
    && IsPath(store.events, Idle)
    && match r
       case Ok(o) => store.states == Targets(store.events) && EndOf(store.events, Idle) == Final(o)
       case Err(StateWrite) => store.events != [] && store.states == Targets(store.events[..|store.events| - 1])
       case Err(_) => store.states == Targets(store.events)
  }

  ghost predicate InStep(store: Store, from: Lifecycle) {
    IsPath(store.events, Idle) && EndOf(store.events, Idle) == from && store.states == Targets(store.events)
  }

  lemma RecordFits(store: Store, from: Lifecycle, to: Lifecycle)
    requires InStep(store, from)
    ensures var (next, err) := Record(store, from, to);
            if err.None? then InStep(next, to) else LogFits(next, Err(err.value))
  {
    if store.Accepts() {
      PathGrows(store.events, from, to);
    }
  }

  lemma PathGrows(events: seq<Transition>, from: Lifecycle, to: Lifecycle)
    requires IsPath(events, Idle) && EndOf(events, Idle) == from
    ensures var grown := events + [Transition(from, to)];
            && IsPath(grown, Idle) && EndOf(grown, Idle) == to
            && grown[..|grown| - 1] == events && Targets(grown) == Targets(events) + [to]
  {
  }

  lemma {:induction false} RollbackLog<R>(steps: seq<Step<R>>, k: nat, from: Lifecycle, failed: string, why: string, run: Run<R>)
    requires k <= |steps| && InStep(run.store, from)
    ensures var (end, r) := Rollback(steps, k, from, failed, why, run);
            LogFits(end.store, r)
    decreases k
  {
    if k == 0 {
      RecordFits(run.store, from, RolledBack);
    } else {
      var to := Compensating(steps[k - 1].name);
      RecordFits(run.store, from, to);
      var (store, err) := Record(run.store, from, to);
      if err.None? {
        match steps[k - 1].compensate(run.state) {
          case Done(state) =>
            RollbackLog(steps, k - 1, to, failed, why, Run(state, store, run.actions + [Compensate(k - 1, true)]));
          case Failed(state, message) =>
            RecordFits(store, to, PartialRollback(CompensationReason(steps[k - 1].name, message)));
        }
      }
    }
  }

  /**
   Over every run, the persisted log is a connected path from `Idle`, the state
   log mirrors it, and a run that reports an outcome has persisted exactly that
   outcome as the last state.
   */
  lemma {:induction false} RunLog<R>(steps: seq<Step<R>>, k: nat, from: Lifecycle, run: Run<R>)
    requires k <= |steps| && InStep(run.store, from)
    ensures var (end, r) := Execute(steps, k, from, run);
            LogFits(end.store, r)
    decreases |steps| - k
  {
    if k == |steps| {
      RecordFits(run.store, from, Committed);
    } else {
      var to := Running(steps[k].name);
      RecordFits(run.store, from, to);
      var (store, err) := Record(run.store, from, to);
      if err.None? {
        match steps[k].forward(run.state) {
          case Done(state) =>
            RunLog(steps, k + 1, to, Run(state, store, run.actions + [Forward(k, true)]));
          case Failed(state, message) =>
            RollbackLog(steps, k, to, steps[k].name, message, Run(state, store, run.actions + [Forward(k, false)]));
        }
      }
    }
  }

  // ---------------------------------------------------------------------------
  // Which states are recorded.

  ghost predicate AreOf<R>(actions: seq<Action>, steps: seq<Step<R>>) {
    forall i :: 0 <= i < |actions| ==> actions[i].step < |steps|
  }

  /** The state that announces one action: it names the action's own step. */
  function StateOf<R>(steps: seq<Step<R>>, a: Action): Lifecycle
    requires a.step < |steps|
  {
    if a.Forward? then Running(steps[a.step].name) else Compensating(steps[a.step].name)
  }

  ghost function StatesOf<R>(steps: seq<Step<R>>, actions: seq<Action>): (s: seq<Lifecycle>)
    requires AreOf(actions, steps)
    ensures |s| == |actions| && forall i :: 0 <= i < |actions| ==> s[i] == StateOf(steps, actions[i])
  {
    seq(|actions|, i requires 0 <= i < |actions| => StateOf(steps, actions[i]))
  }

  /** The state that comes after the actions taken so far. */
  ghost predicate IsDue<R>(steps: seq<Step<R>>, actions: seq<Action>, state: Lifecycle)
    requires AreOf(actions, steps)
  {
    if actions == [] || actions[|actions| - 1] == Forward(actions[|actions| - 1].step, true) then
      var next := if actions == [] then 0 else actions[|actions| - 1].step + 1;
      state == if next == |steps| then Committed else Running(steps[next].name)
    else
      var last := actions[|actions| - 1];
      if last == Compensate(last.step, false) then
        exists message :: state == PartialRollback(CompensationReason(steps[last.step].name, message))
      else
        state == if last.step == 0 then RolledBack else Compensating(steps[last.step - 1].name)
  }

  /** One state for each action since `base`, recorded as event and as state. */
  ghost predicate Recorded<R>(steps: seq<Step<R>>, base: Store, run: Run<R>) {
    && AreOf(run.actions, steps)
    && run.store.states == base.states + StatesOf(steps, run.actions)
    && Targets(run.store.events) == Targets(base.events) + StatesOf(steps, run.actions)
  }

  /**
   What a run recorded, by how it ended: the states of its actions, then the one
   that was due. An event the store refused leaves no trace of it, a state it
   refused leaves the event alone.
   */
  ghost predicate RecordsFit<R>(steps: seq<Step<R>>, base: Store, end: Run<R>, r: Result<Outcome, StoreError>) {
    && AreOf(end.actions, steps)
    && var taken := StatesOf(steps, end.actions);
       match r
       case Ok(o) =>
         && IsDue(steps, end.actions, Final(o))
         && end.store.states == base.states + taken + [Final(o)]
         && Targets(end.store.events) == Targets(base.events) + taken + [Final(o)]
       case Err(StateWrite) =>
         && end.store.states == base.states + taken
         && exists due :: IsDue(steps, end.actions, due) && Targets(end.store.events) == Targets(base.events) + taken + [due]
       case Err(_) => Recorded(steps, base, end)
  }

  lemma TargetsGrow(events: seq<Transition>, from: Lifecycle, to: Lifecycle)
    ensures Targets(events + [Transition(from, to)]) == Targets(events) + [to]
  {
  }

  /** The last write of a run. */
  lemma LastRecord<R>(steps: seq<Step<R>>, base: Store, run: Run<R>, from: Lifecycle, o: Outcome)
    requires Recorded(steps, base, run) && IsDue(steps, run.actions, Final(o))
    ensures var (store, err) := Record(run.store, from, Final(o));
            RecordsFit(steps, base, run.(store := store), if err.Some? then Err(err.value) else Ok(o))
  {
    TargetsGrow(run.store.events, from, Final(o));
  }

  /** A write before an action, which the action then matches. */
  lemma NextRecord<R>(steps: seq<Step<R>>, base: Store, run: Run<R>, from: Lifecycle, a: Action, state: R)
    requires Recorded(steps, base, run) && a.step < |steps| && IsDue(steps, run.actions, StateOf(steps, a))
    ensures var (store, err) := Record(run.store, from, StateOf(steps, a));
            if err.None? then Recorded(steps, base, Run(state, store, run.actions + [a]))
            else RecordsFit(steps, base, run.(store := store), Err(err.value))
  {
    TargetsGrow(run.store.events, from, StateOf(steps, a));
    StatesGrow(steps, run.actions, a);
  }

  lemma StatesGrow<R>(steps: seq<Step<R>>, actions: seq<Action>, a: Action)
    requires AreOf(actions, steps) && a.step < |steps|
    ensures AreOf(actions + [a], steps) && StatesOf(steps, actions + [a]) == StatesOf(steps, actions) + [StateOf(steps, a)]
  {
  }

  /** The compensation of step `k - 1` is next. */
  ghost predicate Undoing(actions: seq<Action>, k: nat) {
    && actions != []
    && (actions[|actions| - 1] == Forward(k, false) || actions[|actions| - 1] == Compensate(k, true))
  }

  lemma {:induction false} RollbackRecords<R>(steps: seq<Step<R>>, base: Store, k: nat, from: Lifecycle, failed: string, why: string, run: Run<R>)
    requires k <= |steps| && Recorded(steps, base, run) && Undoing(run.actions, k)
    ensures var (end, r) := Rollback(steps, k, from, failed, why, run);
            RecordsFit(steps, base, end, r)
    decreases k
  {
    if k == 0 {
      LastRecord(steps, base, run, from, RunRolledBack(failed, why));
    } else {
      var name := steps[k - 1].name;
      var (store, err) := Record(run.store, from, Compensating(name));
      match steps[k - 1].compensate(run.state) {
        case Done(state) =>
          NextRecord(steps, base, run, from, Compensate(k - 1, true), state);
          if err.None? {
            RollbackRecords(steps, base, k - 1, Compensating(name), failed, why, Run(state, store, run.actions + [Compensate(k - 1, true)]));
          }
        case Failed(state, message) =>
          NextRecord(steps, base, run, from, Compensate(k - 1, false), state);
          if err.None? {
            LastRecord(steps, base, Run(state, store, run.actions + [Compensate(k - 1, false)]), Compensating(name),
                       RunPartial(CompensationReason(name, message)));
          }
      }
    }
  }

  /** The forward action of step `k` is next, or the commit. */
  ghost predicate Advancing(actions: seq<Action>, k: nat) {
    if k == 0 then actions == [] else actions != [] && actions[|actions| - 1] == Forward(k - 1, true)
  }

  lemma {:induction false} ExecuteRecords<R>(steps: seq<Step<R>>, base: Store, k: nat, from: Lifecycle, run: Run<R>)
    requires k <= |steps| && Recorded(steps, base, run) && Advancing(run.actions, k)
    ensures var (end, r) := Execute(steps, k, from, run);
            RecordsFit(steps, base, end, r)
    decreases |steps| - k
  {
    if k == |steps| {
      LastRecord(steps, base, run, from, RunCommitted);
    } else {
      var name := steps[k].name;
      var (store, err) := Record(run.store, from, Running(name));
      match steps[k].forward(run.state) {
        case Done(state) =>
          NextRecord(steps, base, run, from, Forward(k, true), state);
          if err.None? {
            ExecuteRecords(steps, base, k + 1, Running(name), Run(state, store, run.actions + [Forward(k, true)]));
          }
        case Failed(state, message) =>
          NextRecord(steps, base, run, from, Forward(k, false), state);
          if err.None? {
            RollbackRecords(steps, base, k, Running(name), name, message, Run(state, store, run.actions + [Forward(k, false)]));
          }
      }
    }
  }

  /**
   The log of every run, whatever the store refuses: each action has its own
   step's state recorded before it, `Running` for a forward action and
   `Compensating` for a compensation, and after the last comes the final state.
   No action runs whose state was not recorded.
   */
  lemma RunRecords<R>(steps: seq<Step<R>>, run: Run<R>)
    requires run.actions == []
    ensures var (end, r) := Execute(steps, 0, Idle, run);
            RecordsFit(steps, run.store, end, r)
  {
    assert run.store.states + [] == run.store.states && Targets(run.store.events) + [] == Targets(run.store.events);
    ExecuteRecords(steps, run.store, 0, Idle, run);
  }

  // ---------------------------------------------------------------------------
  // Atomicity.

  /**
   `up(k, s)` says that `s` is a state in which exactly the first `k` steps have
   taken effect; `down(k, s)` is what is still known of such a state once a
   failure has been seen. The steps respect them when a completed forward climbs,
   a failed forward leaves its own level, and a completed compensation descends.
   */
  ghost predicate Compensable<R(!new)>(steps: seq<Step<R>>, up: (nat, R) -> bool, down: (nat, R) -> bool) {
    forall k, s :: 0 <= k < |steps| ==> ForwardKeeps(steps[k], k, up, down, s) && CompensateKeeps(steps[k], k, down, s)
  }

  ghost predicate ForwardKeeps<R>(step: Step<R>, k: nat, up: (nat, R) -> bool, down: (nat, R) -> bool, s: R) {
    up(k, s) ==> var e := step.forward(s); if e.Done? then up(k + 1, e.state) else down(k, e.state)
  }

  ghost predicate CompensateKeeps<R>(step: Step<R>, k: nat, down: (nat, R) -> bool, s: R) {
    down(k + 1, s) ==> var e := step.compensate(s); e.Done? ==> down(k, e.state)
  }

  lemma {:induction false} RollbackDescends<R(!new)>(steps: seq<Step<R>>, up: (nat, R) -> bool, down: (nat, R) -> bool,
                                                     k: nat, from: Lifecycle, failed: string, why: string, run: Run<R>)
    requires Compensable(steps, up, down) && k <= |steps| && down(k, run.state)
    ensures var (end, r) := Rollback(steps, k, from, failed, why, run);
            r.Ok? && r.value.RunRolledBack? ==> down(0, end.state)
    decreases k
  {
    if k > 0 {
      var to := Compensating(steps[k - 1].name);
      var (store, err) := Record(run.store, from, to);
      if err.None? {
        assert CompensateKeeps(steps[k - 1], k - 1, down, run.state);
        match steps[k - 1].compensate(run.state) {
          case Done(state) =>
            RollbackDescends(steps, up, down, k - 1, to, failed, why, Run(state, store, run.actions + [Compensate(k - 1, true)]));
          case Failed(state, message) =>
        }
      }
    }
  }

  /** All or nothing: a committed run stands at the top, a rolled-back one at the bottom. */
  lemma {:induction false} Atomicity<R(!new)>(steps: seq<Step<R>>, up: (nat, R) -> bool, down: (nat, R) -> bool,
                                              k: nat, from: Lifecycle, run: Run<R>)
    requires Compensable(steps, up, down) && k <= |steps| && up(k, run.state)
    ensures var (end, r) := Execute(steps, k, from, run);
            && (r.Ok? && r.value.RunCommitted? ==> up(|steps|, end.state))
            && (r.Ok? && r.value.RunRolledBack? ==> down(0, end.state))
    decreases |steps| - k
  {
    if k < |steps| {
      var to := Running(steps[k].name);
      var (store, err) := Record(run.store, from, to);
      if err.None? {
        assert ForwardKeeps(steps[k], k, up, down, run.state);
        match steps[k].forward(run.state) {
          case Done(state) =>
            Atomicity(steps, up, down, k + 1, to, Run(state, store, run.actions + [Forward(k, true)]));
          case Failed(state, message) =>
            var next := Run(state, store, run.actions + [Forward(k, false)]);
            RollbackDescends(steps, up, down, k, to, steps[k].name, message, next);
            RollbackNames(steps, k, to, steps[k].name, message, next);
        }
      }
    }
  }

  /** The first step whose forward action fails, when the store never interferes. */
  function FailsAt<R>(steps: seq<Step<R>>, k: nat, s: R): (r: Option<nat>)
    requires k <= |steps|
    ensures r.Some? ==> k <= r.value < |steps|
    decreases |steps| - k
  {
    if k == |steps| then None
    else
      match steps[k].forward(s)
      case Done(s') => FailsAt(steps, k + 1, s')
      case Failed(_, _) => Some(k)
  }

  /** The message of that step's failure. */
  function FailureAt<R>(steps: seq<Step<R>>, k: nat, s: R): string
    requires k <= |steps| && FailsAt(steps, k, s).Some?
    decreases |steps| - k
  {
    match steps[k].forward(s)
    case Done(s') => FailureAt(steps, k + 1, s')
    case Failed(_, message) => message
  }

  /** Which step a finished run failed at, and why, depends on the steps alone: the outcome names the first that fails. */
  lemma {:induction false} OutcomeFollowsSteps<R>(steps: seq<Step<R>>, k: nat, from: Lifecycle, run: Run<R>)
    requires k <= |steps|
    ensures var (_, r) := Execute(steps, k, from, run);
            var failed := FailsAt(steps, k, run.state);
            r.Ok? ==>
              && (r.value.RunCommitted? <==> failed.None?)
              && (r.value.RunRolledBack? ==>
                    failed.Some? && r.value == RunRolledBack(steps[failed.value].name, FailureAt(steps, k, run.state)))
    decreases |steps| - k
  {
    if k < |steps| {
      var to := Running(steps[k].name);
      var (store, err) := Record(run.store, from, to);
      if err.None? {
        match steps[k].forward(run.state) {
          case Done(state) =>
            OutcomeFollowsSteps(steps, k + 1, to, Run(state, store, run.actions + [Forward(k, true)]));
          case Failed(state, message) =>
            RollbackNames(steps, k, to, steps[k].name, message, Run(state, store, run.actions + [Forward(k, false)]));
        }
      }
    }
  }

  lemma {:induction false} RollbackNames<R>(steps: seq<Step<R>>, k: nat, from: Lifecycle, failed: string, why: string, run: Run<R>)
    requires k <= |steps|
    ensures var (_, r) := Rollback(steps, k, from, failed, why, run);
            r.Ok? ==> r.value.RunPartial? || r.value == RunRolledBack(failed, why)
    decreases k
  {
    if k > 0 {
      var to := Compensating(steps[k - 1].name);
      var (store, err) := Record(run.store, from, to);
      if err.None? {
        match steps[k - 1].compensate(run.state) {
          case Done(state) =>
            RollbackNames(steps, k - 1, to, failed, why, Run(state, store, run.actions + [Compensate(k - 1, true)]));
          case Failed(state, message) =>
        }
      }
    }
  }

  // ---------------------------------------------------------------------------
  // Runs the store does not interfere with.

  /** The compensations of the first `k` steps in reverse, up to the first that fails. */
  function Unwind<R>(steps: seq<Step<R>>, k: nat, s: R): Effect<R>
    requires k <= |steps|
  {
    if k == 0 then Done(s)
    else
      match steps[k - 1].compensate(s)
      case Done(s') => Unwind(steps, k - 1, s')
      case Failed(s', message) => Failed(s', CompensationReason(steps[k - 1].name, message))
  }

  /** The state after the first failing step, or after the last step. */
  function Wind<R>(steps: seq<Step<R>>, k: nat, s: R): R
    requires k <= |steps|
    decreases |steps| - k
  {
    if k == |steps| then s
    else
      match steps[k].forward(s)
      case Done(s') => Wind(steps, k + 1, s')
      case Failed(s', _) => s'
  }

  lemma {:induction false} OutcomeOfRollback<R>(steps: seq<Step<R>>, k: nat, from: Lifecycle, failed: string, why: string, run: Run<R>)
    requires k <= |steps|
    ensures var (end, r) := Rollback(steps, k, from, failed, why, run);
            var e := Unwind(steps, k, run.state);
            && (run.store.faults == [] ==> r.Ok?)
            && (r.Ok? ==> end.state == e.state && r.value == if e.Done? then RunRolledBack(failed, why) else RunPartial(e.message))
    decreases k
  {
    if k > 0 {
      var to := Compensating(steps[k - 1].name);
      var (store, err) := Record(run.store, from, to);
      if err.None? {
        match steps[k - 1].compensate(run.state) {
          case Done(state) =>
            OutcomeOfRollback(steps, k - 1, to, failed, why, Run(state, store, run.actions + [Compensate(k - 1, true)]));
          case Failed(state, message) =>
        }
      }
    }
  }

  /**
   A run that reports an outcome ends as the steps alone decide, whatever the store
   did; with a store that takes every write it always reports one.
   */
  lemma {:induction false} UndisturbedRun<R>(steps: seq<Step<R>>, k: nat, from: Lifecycle, run: Run<R>)
    requires k <= |steps|
    ensures var (end, r) := Execute(steps, k, from, run);
            var failed := FailsAt(steps, k, run.state);
            var top := Wind(steps, k, run.state);
            && (run.store.faults == [] ==> r.Ok?)
            && (r.Ok? ==>
                  if failed.None? then end.state == top && r.value == RunCommitted
                  else
                    var e := Unwind(steps, failed.value, top);
                    && end.state == e.state
                    && r.value == if e.Done? then RunRolledBack(steps[failed.value].name, FailureAt(steps, k, run.state)) else RunPartial(e.message))
    decreases |steps| - k
  {
    if k < |steps| {
      var to := Running(steps[k].name);
      var (store, err) := Record(run.store, from, to);
      if err.None? {
        match steps[k].forward(run.state) {
          case Done(state) =>
            UndisturbedRun(steps, k + 1, to, Run(state, store, run.actions + [Forward(k, true)]));
          case Failed(state, message) =>
            OutcomeOfRollback(steps, k, to, steps[k].name, message, Run(state, store, run.actions + [Forward(k, false)]));
        }
      }
    }
  }
}
