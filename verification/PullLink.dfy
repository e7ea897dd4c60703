/**
 The host-pull adapter's own swap of the active link: `ln -sfn` onto one fixed
 temporary name, then `mv -Tf` of that name over the active one. Unlike the shared
 swap, every activator uses the same temporary name.
 */
module PullLink {
  import opened Basics

  type Version = string
  type Caller = nat

  /** The two names, who is between its two commands and with which version, and what each finished call reported. */
  datatype State = State(active: Option<Version>, tmp: Option<Version>, linked: map<Caller, Version>, reported: seq<Report>)

  datatype Report = Report(caller: Caller, version: Version, ok: bool, active: Option<Version>)

  datatype Event = Link(caller: Caller, version: Version, ok: bool) | Move(caller: Caller, ok: bool)

  function Start(active: Option<Version>): State {
    State(active, None, map[], [])
  }

  /** A failing `ln` or `mv` changes neither name; `mv` fails when the temporary one is gone. */
  function Step(s: State, e: Event): State {
    match e
    case Link(c, v, ok) =>
      if c in s.linked then s
      else if ok then s.(tmp := Some(v), linked := s.linked[c := v])
      else s.(reported := s.reported + [Report(c, v, false, s.active)])
    case Move(c, ok) =>
      if c !in s.linked then s
      else if ok && s.tmp.Some? then
        State(s.tmp, None, s.linked - {c}, s.reported + [Report(c, s.linked[c], true, s.tmp)])
      else
        s.(linked := s.linked - {c}, reported := s.reported + [Report(c, s.linked[c], false, s.active)])
  }

  function Run(s: State, events: seq<Event>): State
    decreases |events|
  {
    if events == [] then s else Run(Step(s, events[0]), events[1..])
  }

  /** The versions some activation was asked for. */
  function Asked(events: seq<Event>): set<Version> {
    set i | 0 <= i < |events| && events[i].Link? :: events[i].version
  }

  ghost predicate Inv(s: State, active: Option<Version>, asked: set<Version>) {
    && (s.active == active || (s.active.Some? && s.active.value in asked))
    && (s.tmp.Some? ==> s.tmp.value in asked)
    && (forall c :: c in s.linked ==> s.linked[c] in asked)
    && (active.Some? ==> s.active.Some?)
  }

  lemma StepKeeps(s: State, e: Event, active: Option<Version>, asked: set<Version>)
    requires Inv(s, active, asked) && (e.Link? ==> e.version in asked)
    ensures Inv(Step(s, e), active, asked)
  {
  }

  lemma {:induction false} RunKeeps(s: State, events: seq<Event>, active: Option<Version>, asked: set<Version>)
    requires Inv(s, active, asked) && Asked(events) <= asked
    ensures Inv(Run(s, events), active, asked)
    decreases |events|
  {
    if events != [] {
      assert events[0].Link? ==> events[0].version in Asked(events);
      StepKeeps(s, events[0], active, asked);
      assert Asked(events[1..]) <= Asked(events) by {
        forall v | v in Asked(events[1..]) ensures v in Asked(events) {
          var i :| 0 <= i < |events[1..]| && events[1..][i].Link? && events[1..][i].version == v;
          assert events[i + 1] == events[1..][i];
        }
      }
      RunKeeps(Step(s, events[0]), events[1..], active, asked);
    }
  }

  /** Over every interleaving, the active link is the first one or one that was asked for, and never vanishes. */
  lemma ActiveWasAsked(active: Option<Version>, events: seq<Event>)
    ensures Inv(Run(Start(active), events), active, Asked(events))
  {
    RunKeeps(Start(active), events, active, Asked(events));
  }

  /** No other call of either command goes through meanwhile. */
  ghost predicate Undisturbed(events: seq<Event>) {
    forall i :: 0 <= i < |events| ==> !events[i].ok
  }

  lemma {:induction false} QuietLeavesNoTrace(linked: set<Caller>, trace: Trace, events: seq<Event>)
    requires Undisturbed(events)
    ensures Follow(linked, trace, events) == trace
    decreases |events|
  {
    if events != [] {
      assert !events[0].ok;
      QuietLeavesNoTrace(if events[0].Link? then linked else linked - {events[0].caller}, trace, events[1..]);
    }
  }

  /** A report is true when it says success exactly if its version is the active one. */
  predicate IsTrue(r: Report) {
    r.ok <==> r.active == Some(r.version)
  }

  /** What the last command of a call reports, by what the two names hold when it comes. */
  lemma MoveReportsTruthIff(s: State, c: Caller)
    requires c in s.linked
    ensures var t := Step(s, Move(c, true));
            var last := t.reported[|t.reported| - 1];
            && |t.reported| == |s.reported| + 1 && last.caller == c && last.version == s.linked[c] && last.active == t.active
            && (IsTrue(last) <==> s.tmp == Some(s.linked[c]) || (s.tmp == None && s.active != Some(s.linked[c])))
  {
  }

  /**
   What others have done to the shared name since a call put its version there: the
   version linked last, and whether it has been moved into place since.
   */
  datatype Trace = Trace(version: Version, moved: bool)

  /** The trace after some events, read off the events alone: who is between its two commands, and what went through. */
  function Follow(linked: set<Caller>, trace: Trace, events: seq<Event>): Trace
    decreases |events|
  {
    if events == [] then trace
    else
      match events[0]
      case Link(d, u, ok) =>
        if d in linked || !ok then Follow(linked, trace, events[1..])
        else Follow(linked + {d}, Trace(u, false), events[1..])
      case Move(d, ok) =>
        Follow(linked - {d}, if d in linked && ok then trace.(moved := true) else trace, events[1..])
  }

  ghost predicate Holds(s: State, trace: Trace) {
    if trace.moved then s.tmp == None && s.active == Some(trace.version) else s.tmp == Some(trace.version)
  }

  lemma {:induction false} TraceIsExact(s: State, c: Caller, trace: Trace, events: seq<Event>)
    requires c in s.linked && Holds(s, trace) && forall i :: 0 <= i < |events| ==> events[i].caller != c
    ensures var t := Run(s, events);
            Holds(t, Follow(s.linked.Keys, trace, events)) && c in t.linked && t.linked[c] == s.linked[c]
    decreases |events|
  {
    if events != [] {
      var e := events[0];
      var t := Step(s, e);
      match e {
        case Link(d, u, ok) =>
          if d in s.linked || !ok {
            assert t.linked == s.linked;
            TraceIsExact(t, c, trace, events[1..]);
          } else {
            assert t.linked.Keys == s.linked.Keys + {d};
            TraceIsExact(t, c, Trace(u, false), events[1..]);
          }
        case Move(d, ok) =>
          assert t.linked.Keys == s.linked.Keys - {d};
          TraceIsExact(t, c, if d in s.linked && ok then trace.(moved := true) else trace, events[1..]);
      }
    }
  }

  /**
   For every call and everything others do between its two commands: its report is
   true exactly when either the version linked last is its own and nobody has moved
   it, or it is another one and somebody has.
   */
  lemma CallReportsTruthIff(s: State, c: Caller, v: Version, between: seq<Event>)
    requires c !in s.linked && forall i :: 0 <= i < |between| ==> between[i].caller != c
    ensures var t := Step(Run(Step(s, Link(c, v, true)), between), Move(c, true));
            var trace := Follow(s.linked.Keys + {c}, Trace(v, false), between);
            && t.reported != [] && t.reported[|t.reported| - 1].caller == c && t.reported[|t.reported| - 1].version == v
            && t.reported[|t.reported| - 1].active == t.active
            && (IsTrue(t.reported[|t.reported| - 1]) <==> (trace.version == v) != trace.moved)
  {
    var s1 := Step(s, Link(c, v, true));
    assert s1.linked.Keys == s.linked.Keys + {c};
    TraceIsExact(s1, c, Trace(v, false), between);
    MoveReportsTruthIff(Run(s1, between), c);
  }

  /**
   An activation that nobody disturbs between its two commands reports success and
   its own version is then active.
   */
  lemma AloneIsExact(s: State, c: Caller, v: Version, between: seq<Event>)
    requires c !in s.linked && Undisturbed(between) && forall i :: 0 <= i < |between| ==> between[i].caller != c
    ensures var t := Step(Run(Step(s, Link(c, v, true)), between), Move(c, true));
            t.active == Some(v) && t.tmp == None && t.reported != [] && t.reported[|t.reported| - 1] == Report(c, v, true, Some(v))
  {
    var s1 := Step(s, Link(c, v, true));
    QuietLeavesNoTrace(s1.linked.Keys, Trace(v, false), between);
    TraceIsExact(s1, c, Trace(v, false), between);
  }

  /**
   Two activations whose commands overlap, from any state: the first reports success
   for its version while the other's version is active, and the other reports
   failure although its version is the one that is active.
   */
  lemma OverlapMisreports(s: State, c: Caller, d: Caller, v: Version, u: Version)
    requires c != d && c !in s.linked && d !in s.linked
    ensures var s2 := Step(Step(s, Link(c, v, true)), Link(d, u, true));
            var t := Step(Step(s2, Move(c, true)), Move(d, true));
            && t.active == Some(u)
            && t.reported == s.reported + [Report(c, v, true, Some(u)), Report(d, u, false, Some(u))]
  {
  }
}
