/**
 The activation swap of `fraisier-adapter-support` staging: each activator removes
 its temporary link, creates it anew and renames it over the active link. Any
 number of activators run interleaved, one system call a step, and any of them
 may die between two steps.
 */
module Symlink {
  import opened Basics
  import opened Text

  type Path = string
  type Pid = nat

  /** The temporary link's name, beside the active one. */
  function TmpName(active: string, pid: Pid): (r: string)
    ensures r != active
  {
    active + ".fraisier-tmp-" + Decimal(pid)
  }

  lemma TmpNamesDiffer(active: string, p: Pid, q: Pid)
    ensures TmpName(active, p) == TmpName(active, q) <==> p == q
  {
    var stem := active + ".fraisier-tmp-";
    assert (stem + Decimal(p))[|stem|..] == Decimal(p) && (stem + Decimal(q))[|stem|..] == Decimal(q);
    DecimalInjective(p, q);
  }

  /** Where an activator is. A finished or dead process ID may be used again. */
  datatype Phase = Begun | Cleared | Linked | RenameFailed | Succeeded | GaveUp | Dead

  datatype Proc = Proc(phase: Phase, target: Path) {
    predicate Live() {
      phase != Succeeded && phase != GaveUp && phase != Dead
    }
  }

  /**
   The directory of links and the activators. `requested` and `renames` are the
   history: every target asked for, and the targets swapped in, in order.
   */
  datatype System = System(
    active: string,
    links: map<string, Path>,
    procs: map<Pid, Proc>,
    requested: set<Path>,
    renames: seq<Path>)

  /** One step, with the outcome the file system gives it. */
  datatype Event =
    | Spawn(pid: Pid, target: Path)
    | Clear(pid: Pid, ok: bool)
    | Link(pid: Pid, ok: bool)
    | Rename(pid: Pid, ok: bool)
    | Sweep(pid: Pid, ok: bool)
    | Crash(pid: Pid)

  function In(s: System, pid: Pid, phase: Phase): bool {
    pid in s.procs && s.procs[pid].phase == phase
  }

  function Goes(s: System, pid: Pid, phase: Phase): System
    requires pid in s.procs
  {
    s.(procs := s.procs[pid := s.procs[pid].(phase := phase)])
  }

  function Without(s: System, name: string): System {
    s.(links := s.links - {name})
  }

  /** An event that is not enabled changes nothing. */
  function Step(s: System, e: Event): System {
    match e
    case Spawn(pid, target) =>
      if pid in s.procs && s.procs[pid].Live() then s
      else s.(procs := s.procs[pid := Proc(Begun, target)], requested := s.requested + {target})
    case Clear(pid, ok) =>
      if !In(s, pid, Begun) then s
      else if ok then Without(Goes(s, pid, Cleared), TmpName(s.active, pid)) else Goes(s, pid, Cleared)
    case Link(pid, ok) =>
      if !In(s, pid, Cleared) then s
      else if !ok || TmpName(s.active, pid) in s.links then Goes(s, pid, GaveUp)
      else Goes(s, pid, Linked).(links := s.links[TmpName(s.active, pid) := s.procs[pid].target])
    case Rename(pid, ok) =>
      if !In(s, pid, Linked) || TmpName(s.active, pid) !in s.links then s
      else if !ok then Goes(s, pid, RenameFailed)
      else
        var moved := s.links[TmpName(s.active, pid)];
        Goes(s, pid, Succeeded).(links := (s.links - {TmpName(s.active, pid)})[s.active := moved],
                                 renames := s.renames + [moved])
    case Sweep(pid, ok) =>
      if !In(s, pid, RenameFailed) then s
      else if ok then Without(Goes(s, pid, GaveUp), TmpName(s.active, pid)) else Goes(s, pid, GaveUp)
    case Crash(pid) =>
      if pid in s.procs && s.procs[pid].Live() then Goes(s, pid, Dead) else s
  }

  function Run(s: System, events: seq<Event>): System {
    if events == [] then s else Step(Run(s, events[..|events| - 1]), events[|events| - 1])
  }

  function Start(active: string, links: map<string, Path>): System {
    System(active, links, map[], {}, [])
  }

  // ---------------------------------------------------------------------------
  // One activator alone: the source's sequence of calls

  /** Which of the calls of one activation succeed. */
  datatype Faults = Faults(clear: bool, link: bool, rename: bool, sweep: bool)

  function Calls(pid: Pid, target: Path, f: Faults): seq<Event> {
    [Spawn(pid, target), Clear(pid, f.clear), Link(pid, f.link), Rename(pid, f.rename), Sweep(pid, f.sweep)]
  }

  /** What one undisturbed activation leaves, and whether it succeeds. */
  function Alone(active: string, links: map<string, Path>, pid: Pid, target: Path, f: Faults): (map<string, Path>, bool) {
    var tmp := TmpName(active, pid);
    var cleared := if f.clear then links - {tmp} else links;
    if !f.link || tmp in cleared then (cleared, false)
    else if f.rename then ((cleared[tmp := target] - {tmp})[active := target], true)
    else if f.sweep then (cleared[tmp := target] - {tmp}, false)
    else (cleared[tmp := target], false)
  }

  /** An activator that has cleared its temporary name. */
  function ClearedBy(active: string, links: map<string, Path>, pid: Pid, target: Path, f: Faults): System {
    System(active, if f.clear then links - {TmpName(active, pid)} else links, map[pid := Proc(Cleared, target)], {target}, [])
  }

  lemma AloneCleared(active: string, links: map<string, Path>, pid: Pid, target: Path, f: Faults) returns (s: System)
    ensures s == ClearedBy(active, links, pid, target, f)
    ensures var e := Calls(pid, target, f); s == Step(Step(Start(active, links), e[0]), e[1])
  {
    var e := Calls(pid, target, f);
    s := Step(Step(Start(active, links), e[0]), e[1]);
    assert s.procs == map[pid := Proc(Cleared, target)];
    assert s.requested == {target};
  }

  /** The source's sequence of calls is a run of the step machine. */
  lemma AloneIsARun(active: string, links: map<string, Path>, pid: Pid, target: Path, f: Faults)
    ensures Run(Start(active, links), Calls(pid, target, f)).links == Alone(active, links, pid, target, f).0
  {
    var e := Calls(pid, target, f);
    FivePrefixes(Start(active, links), e);
    var s2 := AloneCleared(active, links, pid, target, f);
    var s3 := Step(s2, e[2]);
    if !f.link || TmpName(active, pid) in s2.links {
      assert In(s3, pid, GaveUp);
      assert Step(s3, e[3]) == s3 && Step(s3, e[4]) == s3;
    } else {
      assert In(s3, pid, Linked) && TmpName(active, pid) in s3.links && s3.links[TmpName(active, pid)] == target;
      var s4 := Step(s3, e[3]);
      if f.rename {
        assert In(s4, pid, Succeeded);
        assert Step(s4, e[4]) == s4;
      } else {
        assert In(s4, pid, RenameFailed);
      }
    }
  }

  class LinkDirectory {
    const active: string
    var links: map<string, Path>

    constructor (active: string, links: map<string, Path>)
      ensures this.active == active && this.links == links
    {
      this.active := active;
      this.links := links;
    }

    /** `activate_symlink`: undisturbed, it points the active link at the target or changes no other name. */
    method Activate(pid: Pid, target: Path, faults: Faults) returns (ok: bool)
      modifies this
      ensures (links, ok) == Alone(active, old(links), pid, target, faults)
      ensures links == Run(Start(active, old(links)), Calls(pid, target, faults)).links
      ensures ok <==> faults.link && faults.rename && (faults.clear || TmpName(active, pid) !in old(links))
      ensures ok ==> active in links && links[active] == target && TmpName(active, pid) !in links
      ensures forall n :: n != TmpName(active, pid) && !(ok && n == active) ==>
                (n in links <==> n in old(links)) && (n in links ==> links[n] == old(links)[n])
    {
      var tmp := TmpName(active, pid);
      AloneIsARun(active, links, pid, target, faults);
      if faults.clear {
        links := links - {tmp};
      }
      if !faults.link || tmp in links {
        return false;
      }
      links := links[tmp := target];
      if !faults.rename {
        if faults.sweep {
          links := links - {tmp};
        }
        return false;
      }
      links := (links - {tmp})[active := target];
      ok := true;
    }
  }

  lemma FivePrefixes(s: System, e: seq<Event>)
    requires |e| == 5
    ensures Run(s, e) == Step(Step(Step(Step(Step(s, e[0]), e[1]), e[2]), e[3]), e[4])
  {
    assert e[..4][..3] == e[..3] && e[..3][..2] == e[..2] && e[..2][..1] == e[..1] && e[..1][..0] == [];
    assert Run(s, e[..1]) == Step(s, e[0]);
    assert Run(s, e[..2]) == Step(Run(s, e[..1]), e[1]);
    assert Run(s, e[..3]) == Step(Run(s, e[..2]), e[2]);
    assert Run(s, e[..4]) == Step(Run(s, e[..3]), e[3]);
  }

  // ---------------------------------------------------------------------------
  // Every interleaving

  /** A process that has its temporary link, has exactly its own. */
  ghost predicate HoldsOwn(s: System, pid: Pid)
    requires pid in s.procs
  {
    && s.procs[pid].target in s.requested
    && (s.procs[pid].phase == Linked || s.procs[pid].phase == RenameFailed ==>
          TmpName(s.active, pid) in s.links && s.links[TmpName(s.active, pid)] == s.procs[pid].target)
  }

  /** What is true at every point of every run from a directory of links. */
  ghost predicate Inv(s: System, active: string, links: map<string, Path>) {
    && s.active == active
    && (forall p :: p in s.procs ==> HoldsOwn(s, p))
    && (forall i :: 0 <= i < |s.renames| ==> s.renames[i] in s.requested)
    && (if s.renames == [] then (active in s.links <==> active in links) && (active in links ==> s.links[active] == links[active])
        else active in s.links && s.links[active] == s.renames[|s.renames| - 1])
    && (forall n :: n in s.links && n != active && !(n in links && s.links[n] == links[n]) ==> s.links[n] in s.requested)
    && (forall n :: n != active && (forall p :: p in s.procs ==> n != TmpName(active, p)) ==>
          (n in s.links <==> n in links) && (n in links ==> s.links[n] == links[n]))
  }

  lemma GoesKeeps(s: System, pid: Pid, phase: Phase, active: string, links: map<string, Path>)
    requires Inv(s, active, links) && pid in s.procs && phase != Linked && (phase == RenameFailed ==> s.procs[pid].phase == Linked)
    ensures Inv(Goes(s, pid, phase), active, links)
  {
    var t := Goes(s, pid, phase);
    assert t.procs.Keys == s.procs.Keys;
    forall p | p in t.procs ensures HoldsOwn(t, p) {
      assert HoldsOwn(s, p);
    }
  }

  lemma WithoutKeeps(s: System, pid: Pid, active: string, links: map<string, Path>)
    requires Inv(s, active, links) && pid in s.procs && s.procs[pid].phase != Linked && s.procs[pid].phase != RenameFailed
    ensures Inv(Without(s, TmpName(active, pid)), active, links)
  {
    var t := Without(s, TmpName(active, pid));
    forall p | p in t.procs ensures HoldsOwn(t, p) {
      assert HoldsOwn(s, p);
      TmpNamesDiffer(active, p, pid);
    }
  }

  lemma SpawnKeeps(s: System, e: Event, active: string, links: map<string, Path>)
    requires Inv(s, active, links) && e.Spawn?
    ensures Inv(Step(s, e), active, links)
  {
    var t := Step(s, e);
    forall p | p in t.procs ensures HoldsOwn(t, p) {
      if p in s.procs {
        assert HoldsOwn(s, p);
      }
    }
  }

  lemma LinkKeeps(s: System, e: Event, active: string, links: map<string, Path>)
    requires Inv(s, active, links) && e.Link?
    ensures Inv(Step(s, e), active, links)
  {
    if In(s, e.pid, Cleared) {
      if !e.ok || TmpName(s.active, e.pid) in s.links {
        GoesKeeps(s, e.pid, GaveUp, active, links);
      } else {
        var t := Step(s, e);
        assert t.procs.Keys == s.procs.Keys;
        assert HoldsOwn(s, e.pid);
        forall p | p in t.procs ensures HoldsOwn(t, p) {
          assert HoldsOwn(s, p);
          TmpNamesDiffer(active, p, e.pid);
        }
      }
    }
  }

  lemma RenamedKeeps(s: System, pid: Pid, active: string, links: map<string, Path>)
    requires Inv(s, active, links) && In(s, pid, Linked) && TmpName(s.active, pid) in s.links
    ensures Inv(Step(s, Rename(pid, true)), active, links)
  {
    var t := Step(s, Rename(pid, true));
    assert t.procs.Keys == s.procs.Keys;
    assert HoldsOwn(s, pid);
    forall p | p in t.procs ensures HoldsOwn(t, p) {
      assert HoldsOwn(s, p);
      TmpNamesDiffer(active, p, pid);
    }
  }

  lemma RenameKeeps(s: System, e: Event, active: string, links: map<string, Path>)
    requires Inv(s, active, links) && e.Rename?
    ensures Inv(Step(s, e), active, links)
  {
    if In(s, e.pid, Linked) && TmpName(s.active, e.pid) in s.links {
      if !e.ok {
        GoesKeeps(s, e.pid, RenameFailed, active, links);
      } else {
        RenamedKeeps(s, e.pid, active, links);
      }
    }
  }

  lemma StepKeeps(s: System, e: Event, active: string, links: map<string, Path>)
    requires Inv(s, active, links)
    ensures Inv(Step(s, e), active, links)
  {
    match e {
      case Spawn(_, _) => SpawnKeeps(s, e, active, links);
      case Link(_, _) => LinkKeeps(s, e, active, links);
      case Rename(_, _) => RenameKeeps(s, e, active, links);
      case Clear(pid, ok) =>
        if In(s, pid, Begun) {
          GoesKeeps(s, pid, Cleared, active, links);
          WithoutKeeps(Goes(s, pid, Cleared), pid, active, links);
        }
      case Sweep(pid, ok) =>
        if In(s, pid, RenameFailed) {
          GoesKeeps(s, pid, GaveUp, active, links);
          WithoutKeeps(Goes(s, pid, GaveUp), pid, active, links);
        }
      case Crash(pid) =>
        if pid in s.procs && s.procs[pid].Live() {
          GoesKeeps(s, pid, Dead, active, links);
        }
    }
  }

  lemma {:induction false} RunKeeps(active: string, links: map<string, Path>, events: seq<Event>)
    ensures Inv(Run(Start(active, links), events), active, links)
  {
    if events != [] {
      RunKeeps(active, links, events[..|events| - 1]);
      StepKeeps(Run(Start(active, links), events[..|events| - 1]), events[|events| - 1], active, links);
    }
  }

  function Spawned(events: seq<Event>): set<Path> {
    set i | 0 <= i < |events| && events[i].Spawn? :: events[i].target
  }

  lemma SpawnedGrows(events: seq<Event>)
    requires events != []
    ensures Spawned(events[..|events| - 1]) <= Spawned(events)
    ensures events[|events| - 1].Spawn? ==> events[|events| - 1].target in Spawned(events)
  {
    var earlier := events[..|events| - 1];
    forall t | t in Spawned(earlier) ensures t in Spawned(events) {
      var i :| 0 <= i < |earlier| && earlier[i].Spawn? && earlier[i].target == t;
      assert events[i] == earlier[i];
    }
  }

  lemma StepRequests(s: System, e: Event)
    ensures Step(s, e).requested <= s.requested + if e.Spawn? then {e.target} else {}
  {
  }

  lemma {:induction false} RequestedWereSpawned(active: string, links: map<string, Path>, events: seq<Event>)
    ensures Run(Start(active, links), events).requested <= Spawned(events)
  {
    if events != [] {
      var earlier := events[..|events| - 1];
      RequestedWereSpawned(active, links, earlier);
      SpawnedGrows(events);
      StepRequests(Run(Start(active, links), earlier), events[|events| - 1]);
    }
  }

  /**
   For every interleaving of any number of activators, with crashes anywhere: the
   active link holds its first target or one that some activator asked for, it is
   never absent once present, the last successful rename wins, and no name but
   the active one and the activators' own temporaries changes.
   */
  lemma ActiveLinkIsSafe(active: string, links: map<string, Path>, events: seq<Event>)
    ensures var s := Run(Start(active, links), events);
            && (active in links ==> active in s.links)
            && (active in s.links ==> (active in links && s.links[active] == links[active]) || s.links[active] in Spawned(events))
            && (if s.renames == [] then active in s.links <==> active in links
                else active in s.links && s.links[active] == s.renames[|s.renames| - 1])
            && (forall n :: n != active && (forall p :: p in s.procs ==> n != TmpName(active, p)) ==>
                  (n in s.links <==> n in links) && (n in links ==> s.links[n] == links[n]))
  {
    RunKeeps(active, links, events);
    RequestedWereSpawned(active, links, events);
  }

  // ---------------------------------------------------------------------------
  // No temporary is left behind

  ghost predicate RemovalsSucceed(events: seq<Event>) {
    forall i :: 0 <= i < |events| && (events[i].Clear? || events[i].Sweep?) ==> events[i].ok
  }

  ghost predicate Tidy(s: System) {
    forall p :: p in s.procs ==> TidyFor(s, p)
  }

  ghost predicate TidyFor(s: System, p: Pid)
    requires p in s.procs
  {
    s.procs[p].phase == Cleared || s.procs[p].phase == Succeeded || s.procs[p].phase == GaveUp ==> TmpName(s.active, p) !in s.links
  }

  lemma StepIsTidy(s: System, e: Event)
    requires Tidy(s) && (e.Clear? || e.Sweep? ==> e.ok)
    ensures Tidy(Step(s, e)) && Step(s, e).active == s.active
  {
    var t := Step(s, e);
    forall p | p in t.procs ensures TidyFor(t, p) {
      TmpNamesDiffer(s.active, p, e.pid);
      if p in s.procs {
        assert TidyFor(s, p);
      }
    }
  }

  /**
   When the best-effort removals succeed, an activator that succeeded, or that
   failed and gave up, has left no temporary link.
   */
  lemma {:induction false} NoTemporaryLeft(active: string, links: map<string, Path>, events: seq<Event>)
    requires RemovalsSucceed(events)
    ensures Tidy(Run(Start(active, links), events)) && Run(Start(active, links), events).active == active
  {
    if events != [] {
      NoTemporaryLeft(active, links, events[..|events| - 1]);
      StepIsTidy(Run(Start(active, links), events[..|events| - 1]), events[|events| - 1]);
    }
  }
}
