/**
 The traffic swap of the nginx adapter: write the target's include (or find it
 already there), repoint the active link with the shared swap, reload. Any number
 of swaps run interleaved and may fail or die at any step.
 */
module Traffic {
  import opened Basics
  import opened Text
  import Symlink

  const ACTIVE: string := "active.upstream"
  const SUFFIX: string := ".upstream.conf"

  predicate IsSlash(c: char) {
    c == '/'
  }

  /** `target_file`: joining an absolute name replaces the directory. */
  function TargetFile(dir: string, target: string): string {
    JoinPath(dir, target + SUFFIX)
  }

  /** `Path::join`: an absolute path replaces the directory, and no slash is doubled. */
  function JoinPath(dir: string, name: string): string {
    if name != [] && name[0] == '/' then name
    else if dir == [] || dir[|dir| - 1] == '/' then dir + name
    else dir + "/" + name
  }

  /** The last component of a path that does not end in a slash. */
  function BaseName(path: string): string {
    var parts := Split(path, IsSlash);
    parts[|parts| - 1]
  }

  /** `current_target` on the link's target. */
  function TargetOf(path: string): string {
    StripSuffix(BaseName(path), SUFFIX)
  }

  // ---------------------------------------------------------------------------
  // The name is read back

  lemma {:induction false} LastPiece(a: string, b: string, p: char -> bool)
    requires NoneIn(b, p) && (a == [] || p(a[|a| - 1]))
    ensures var parts := Split(a + b, p); parts[|parts| - 1] == b
    decreases |a|
  {
    var k := Find(a + b, p);
    if a == [] {
      assert a + b == b;
      SplitNone(b, p);
    } else {
      assert p((a + b)[|a| - 1]);
      assert k < |a|;
      assert (a + b)[k + 1..] == a[k + 1..] + b;
      LastPiece(a[k + 1..], b, p);
    }
  }

  lemma SuffixHasNoSlash(t: string)
    requires NoneIn(t, IsSlash)
    ensures NoneIn(t + SUFFIX, IsSlash)
  {
    assert NoneIn(SUFFIX, IsSlash);
  }

  /** The pieces of a split never hold the separator. */
  lemma {:induction false} PiecesAreClean(s: string, p: char -> bool)
    ensures forall i :: 0 <= i < |Split(s, p)| ==> NoneIn(Split(s, p)[i], p)
    decreases |s|
  {
    var k := Find(s, p);
    if k < |s| {
      PiecesAreClean(s[k + 1..], p);
    }
  }

  /** `current_target` names the target of the link exactly when the name has no slash. */
  lemma NameReadsBack(dir: string, target: string)
    ensures TargetOf(TargetFile(dir, target)) == target <==> NoneIn(target, IsSlash)
  {
    var path := TargetFile(dir, target);
    var name := target + SUFFIX;
    if NoneIn(target, IsSlash) {
      SuffixHasNoSlash(target);
      var head := JoinedHead(dir, name);
      LastPiece(head, name, IsSlash);
      assert name[|name| - |SUFFIX|..] == SUFFIX;
    } else {
      PiecesAreClean(path, IsSlash);
      var base := BaseName(path);
      assert NoneIn(base, IsSlash);
      var read := TargetOf(path);
      assert forall i :: 0 <= i < |read| ==> read[i] == base[i];
    }
  }

  /** A name with a slash is read back as what follows the last one: after a switch to `a/b` the current target is `b`. */
  lemma SlashedNameIsCut(dir: string, a: string, b: string)
    requires NoneIn(b, IsSlash)
    ensures TargetOf(TargetFile(dir, a + "/" + b)) == b
  {
    var head := SlashHead(dir, a, b, SUFFIX);
    SuffixHasNoSlash(b);
    LastPiece(head, b + SUFFIX, IsSlash);
    SuffixStrips(b, SUFFIX);
  }

  /** What a joined path puts before a relative name. */
  lemma JoinedHead(dir: string, name: string) returns (head: string)
    requires name == [] || name[0] != '/'
    ensures JoinPath(dir, name) == head + name && (head == [] || head[|head| - 1] == '/')
    ensures head == if dir == [] || dir[|dir| - 1] == '/' then dir else dir + "/"
  {
    head := if dir == [] || dir[|dir| - 1] == '/' then dir else dir + "/";
  }

  lemma SlashHead(dir: string, a: string, b: string, suffix: string) returns (head: string)
    ensures JoinPath(dir, a + "/" + b + suffix) == head + (b + suffix)
    ensures head != [] && head[|head| - 1] == '/'
  {
    var name := a + "/" + b + suffix;
    Assoc(a + "/", b, suffix);
    if name[0] == '/' {
      head := a + "/";
    } else {
      var outer := JoinedHead(dir, name);
      head := outer + (a + "/");
      Assoc(outer, a + "/", b + suffix);
    }
  }

  /** The directory a path lies in, for a path with a slash: everything before the last one. */
  function Parent(path: string): Option<string> {
    var parts := RSplitOnce(path, '/');
    if parts.None? then None else Some(parts.value.0)
  }

  /**
   The include and the link's target lie in the configured directory exactly when
   the name has no slash, or is a path to that very directory.
   */
  lemma TargetLiesIn(dir: string, target: string)
    requires dir != [] && dir[|dir| - 1] != '/'
    ensures Parent(TargetFile(dir, target)) == Some(dir) <==>
              NoneIn(target, IsSlash) || (dir[0] == '/' && exists b :: NoneIn(b, IsSlash) && target == dir + "/" + b)
  {
    var name := target + SUFFIX;
    if NoneIn(target, IsSlash) {
      SuffixHasNoSlash(target);
      ParentIs(dir, name);
    } else {
      var a, b := LastSlash(target);
      SuffixHasNoSlash(b);
      assert name == a + "/" + (b + SUFFIX);
      if a == [] || target[0] == '/' {
        ParentIs(a, b + SUFFIX);
        assert target[0] == name[0] == '/';
        if a == dir {
          assert target == dir + "/" + b;
        }
        if c :| NoneIn(c, IsSlash) && target == dir + "/" + c {
          LastSlashIs(a, b, dir, c);
        }
      } else {
        assert TargetFile(dir, target) == dir + "/" + name;
        assert dir + "/" + name == (dir + "/" + a) + "/" + (b + SUFFIX);
        ParentIs(dir + "/" + a, b + SUFFIX);
        assert |dir + "/" + a| > |dir|;
        assert dir[0] == '/' ==> forall c :: target == dir + "/" + c ==> target[0] == '/';
      }
    }
  }

  lemma ParentIs(dir: string, name: string)
    requires NoneIn(name, IsSlash)
    ensures Parent(dir + "/" + name) == Some(dir)
  {
    assert '/' !in name;
    RSplitOnceAt(dir, '/', name);
  }

  lemma LastSlashIs(a: string, b: string, c: string, d: string)
    requires NoneIn(b, IsSlash) && NoneIn(d, IsSlash) && a + "/" + b == c + "/" + d
    ensures a == c && b == d
  {
    ParentIs(a, b);
    ParentIs(c, d);
    assert (a + "/" + b)[|a| + 1..] == b && (c + "/" + d)[|c| + 1..] == d;
  }

  lemma {:induction false} LastSlash(s: string) returns (a: string, b: string)
    requires !NoneIn(s, IsSlash)
    ensures s == a + "/" + b && NoneIn(b, IsSlash)
  {
    var front, last := s[..|s| - 1], s[|s| - 1];
    assert s == front + [last];
    if last == '/' {
      a, b := front, [];
    } else {
      assert !NoneIn(front, IsSlash);
      var x, y := LastSlash(front);
      a, b := x, y + [last];
    }
  }

  lemma SuffixStrips(b: string, suffix: string)
    ensures StripSuffix(b + suffix, suffix) == b
  {
    assert (b + suffix)[|b|..] == suffix && (b + suffix)[..|b|] == b;
  }

  // ---------------------------------------------------------------------------
  // The protocol

  /** One swap before it reaches the link: nothing yet, or its include is in place. */
  datatype Swap = Preparing(target: string) | Ready(target: string) | Swapping(target: string)

  /**
   The include directory: the files there, the link machine, the swaps by process
   and the history of targets the active link was repointed at.
   */
  datatype State = State(
    dir: string,
    includes: set<string>,
    links: Symlink.System,
    swaps: map<Symlink.Pid, Swap>,
    repoints: seq<string>)

  /**
   One step of one swap. `Provide` is the include: generated when servers are
   configured (`torn` is a write that failed half way and may leave a file), or
   required to exist already. `Links` is any step of the shared swap but its start.
   */
  datatype Event =
    | Begin(pid: Symlink.Pid, target: string)
    | Provide(pid: Symlink.Pid, configured: bool, wrote: bool, torn: bool)
    | Swap(pid: Symlink.Pid)
    | Links(event: Symlink.Event)
    | Reload(pid: Symlink.Pid, ok: bool)

  function Busy(s: State, pid: Symlink.Pid): bool {
    pid in s.links.procs && s.links.procs[pid].Live()
  }

  function Step(s: State, e: Event): State {
    match e
    case Begin(pid, target) => if Busy(s, pid) then s else s.(swaps := s.swaps[pid := Preparing(target)])
    case Provide(pid, configured, wrote, torn) =>
      if pid !in s.swaps || !s.swaps[pid].Preparing? then s
      else
        var target := s.swaps[pid].target;
        var file := TargetFile(s.dir, target);
        if configured then
          if wrote then s.(includes := s.includes + {file}, swaps := s.swaps[pid := Ready(target)])
          else s.(includes := if torn then s.includes + {file} else s.includes, swaps := s.swaps - {pid})
        else if file in s.includes then s.(swaps := s.swaps[pid := Ready(target)])
        else s.(swaps := s.swaps - {pid})
    case Swap(pid) =>
      if pid !in s.swaps || !s.swaps[pid].Ready? || Busy(s, pid) then s
      else
        var target := s.swaps[pid].target;
        s.(swaps := s.swaps[pid := Swapping(target)],
           links := Symlink.Step(s.links, Symlink.Spawn(pid, TargetFile(s.dir, target))))
    case Links(event) =>
      if event.Spawn? then s
      else
        var links := Symlink.Step(s.links, event);
        s.(links := links,
           repoints := if |links.renames| > |s.links.renames| && event.pid in s.swaps
                       then s.repoints + [s.swaps[event.pid].target] else s.repoints)
    case Reload(_, _) => s
  }

  function Run(s: State, events: seq<Event>): State {
    if events == [] then s else Step(Run(s, events[..|events| - 1]), events[|events| - 1])
  }

  function Start(dir: string, includes: set<string>, links: map<string, string>): State {
    State(dir, includes, Symlink.Start(ACTIVE, links), map[], [])
  }

  /** `current_target`: `None` before any swap. */
  function CurrentTarget(s: State): Option<string> {
    if ACTIVE in s.links.links then Some(TargetOf(s.links.links[ACTIVE])) else None
  }

  // ---------------------------------------------------------------------------
  // What every run keeps

  ghost predicate SwapFits(s: State, pid: Symlink.Pid)
    requires pid in s.swaps
  {
    && (!s.swaps[pid].Preparing? ==> TargetFile(s.dir, s.swaps[pid].target) in s.includes)
    && (Busy(s, pid) ==> s.swaps[pid].Swapping? && s.links.procs[pid].target == TargetFile(s.dir, s.swaps[pid].target))
  }

  ghost predicate Inv(s: State, links: map<string, string>) {
    && Symlink.Inv(s.links, ACTIVE, links)
    && (forall p :: p in s.links.requested ==> p in s.includes)
    && (forall pid :: pid in s.swaps ==> SwapFits(s, pid))
    && (forall pid :: Busy(s, pid) ==> pid in s.swaps)
    && |s.repoints| == |s.links.renames|
    && (forall i :: 0 <= i < |s.repoints| ==> s.links.renames[i] == TargetFile(s.dir, s.repoints[i]))
  }

  lemma LinkStepFrame(s: Symlink.System, e: Symlink.Event, p: Symlink.Pid)
    requires !e.Spawn?
    ensures var t := Symlink.Step(s, e);
            && t.requested == s.requested && t.procs.Keys == s.procs.Keys
            && (p in t.procs && t.procs[p].Live() ==> s.procs[p].Live())
            && (p in t.procs ==> t.procs[p].target == s.procs[p].target)
  {
  }

  lemma LinkStepRenames(s: Symlink.System, e: Symlink.Event, active: string, links: map<string, string>)
    requires Symlink.Inv(s, active, links)
    ensures var t := Symlink.Step(s, e);
            t.renames == s.renames
            || (e.Rename? && e.pid in s.procs && s.procs[e.pid].Live() && t.renames == s.renames + [s.procs[e.pid].target])
  {
    if e.Rename? && e.pid in s.procs {
      assert Symlink.HoldsOwn(s, e.pid);
    }
  }

  lemma LinksKeep(s: State, e: Event, links: map<string, string>)
    requires Inv(s, links) && e.Links?
    ensures Inv(Step(s, e), links)
  {
    if !e.event.Spawn? {
      var t := Step(s, e);
      Symlink.StepKeeps(s.links, e.event, ACTIVE, links);
      LinkStepRenames(s.links, e.event, ACTIVE, links);
      forall pid ensures Busy(t, pid) ==> Busy(s, pid) && t.links.procs[pid].target == s.links.procs[pid].target {
        LinkStepFrame(s.links, e.event, pid);
      }
      forall pid | pid in t.swaps ensures SwapFits(t, pid) {
        assert SwapFits(s, pid);
      }
      LinkStepFrame(s.links, e.event, e.event.pid);
      if t.links.renames != s.links.renames {
        assert Busy(s, e.event.pid) && SwapFits(s, e.event.pid);
      }
    }
  }

  lemma SwapKeeps(s: State, e: Event, links: map<string, string>)
    requires Inv(s, links) && e.Swap?
    ensures Inv(Step(s, e), links)
  {
    if e.pid in s.swaps && s.swaps[e.pid].Ready? && !Busy(s, e.pid) {
      var t := Step(s, e);
      var file := TargetFile(s.dir, s.swaps[e.pid].target);
      assert SwapFits(s, e.pid);
      Symlink.StepKeeps(s.links, Symlink.Spawn(e.pid, file), ACTIVE, links);
      forall pid | pid in t.swaps ensures SwapFits(t, pid) {
        assert SwapFits(s, pid);
      }
    }
  }

  /** A step that leaves the links alone and keeps every swap in order. */
  lemma PreparedKeeps(s: State, t: State, links: map<string, string>)
    requires Inv(s, links) && t.links == s.links && t.dir == s.dir && t.repoints == s.repoints && s.includes <= t.includes
    requires forall pid :: pid in t.swaps ==> SwapFits(t, pid)
    requires forall pid :: Busy(s, pid) ==> pid in t.swaps
    ensures Inv(t, links)
  {
  }

  lemma BeginKeeps(s: State, e: Event, links: map<string, string>)
    requires Inv(s, links) && e.Begin?
    ensures Inv(Step(s, e), links)
  {
    var t := Step(s, e);
    forall pid | pid in t.swaps ensures SwapFits(t, pid) {
      assert pid in s.swaps ==> SwapFits(s, pid);
    }
    PreparedKeeps(s, t, links);
  }

  lemma ProvideKeeps(s: State, e: Event, links: map<string, string>)
    requires Inv(s, links) && e.Provide?
    ensures Inv(Step(s, e), links)
  {
    var t := Step(s, e);
    forall pid | pid in t.swaps ensures SwapFits(t, pid) {
      assert SwapFits(s, pid);
      ProvideFits(s, e, pid);
    }
    forall pid | Busy(s, pid) ensures pid in t.swaps {
      assert SwapFits(s, pid);
      ProvideFits(s, e, pid);
    }
    PreparedKeeps(s, t, links);
  }

  /** A provided include reaches its own swap only, and never one that is already swapping. */
  lemma ProvideFits(s: State, e: Event, pid: Symlink.Pid)
    requires e.Provide? && pid in s.swaps && SwapFits(s, pid)
    ensures var t := Step(s, e);
            && t.links == s.links && t.dir == s.dir && t.repoints == s.repoints && s.includes <= t.includes
            && (pid in t.swaps ==> SwapFits(t, pid)) && (Busy(s, pid) ==> pid in t.swaps)
  {
  }

  lemma {:induction false} RunKeeps(dir: string, includes: set<string>, links: map<string, string>, events: seq<Event>)
    ensures Inv(Run(Start(dir, includes, links), events), links)
    ensures includes <= Run(Start(dir, includes, links), events).includes
    ensures Run(Start(dir, includes, links), events).dir == dir
  {
    if events == [] {
    } else {
      var e := events[|events| - 1];
      RunKeeps(dir, includes, links, events[..|events| - 1]);
      var s := Run(Start(dir, includes, links), events[..|events| - 1]);
      match e {
        case Begin(_, _) => BeginKeeps(s, e, links);
        case Provide(_, _, _, _) => ProvideKeeps(s, e, links);
        case Swap(_) => SwapKeeps(s, e, links);
        case Links(_) => LinksKeep(s, e, links);
        case Reload(_, _) =>
      }
    }
  }

  /**
   Over every interleaving of swaps, with failures and crashes at any step: when
   the active link pointed at an existing include to begin with, it always does,
   and it names the target of the last repoint, whatever became of the reload, if
   and only if that target's name has no slash.
   */
  lemma SwapIsSafe(dir: string, includes: set<string>, links: map<string, string>, events: seq<Event>)
    requires ACTIVE in links ==> links[ACTIVE] in includes
    ensures var s := Run(Start(dir, includes, links), events);
            && (ACTIVE in s.links.links ==> s.links.links[ACTIVE] in s.includes)
            && (s.repoints == [] ==> CurrentTarget(s) == if ACTIVE in links then Some(TargetOf(links[ACTIVE])) else None)
            && (s.repoints != [] ==>
                  var last := s.repoints[|s.repoints| - 1];
                  CurrentTarget(s) == Some(last) <==> NoneIn(last, IsSlash))
  {
    RunKeeps(dir, includes, links, events);
    InvIsSafe(Run(Start(dir, includes, links), events), includes, links);
  }

  lemma InvIsSafe(s: State, includes: set<string>, links: map<string, string>)
    requires Inv(s, links) && includes <= s.includes && (ACTIVE in links ==> links[ACTIVE] in includes)
    ensures ACTIVE in s.links.links ==> s.links.links[ACTIVE] in s.includes
    ensures s.repoints == [] ==> CurrentTarget(s) == if ACTIVE in links then Some(TargetOf(links[ACTIVE])) else None
    ensures s.repoints != [] ==>
              var last := s.repoints[|s.repoints| - 1];
              CurrentTarget(s) == Some(last) <==> NoneIn(last, IsSlash)
  {
    if s.repoints != [] {
      var last := s.repoints[|s.repoints| - 1];
      NameReadsBack(s.dir, last);
      assert s.links.links[ACTIVE] == TargetFile(s.dir, last);
      assert s.links.renames[|s.links.renames| - 1] in s.links.requested;
    }
  }
  // ---------------------------------------------------------------------------
  // One swap whose calls all work

  /** The swap up to its link: the include is in place, and the activator begins. */
  lemma SwapPrepares(s: State, pid: Symlink.Pid, target: string, configured: bool) returns (t: State)
    requires !Busy(s, pid) && (configured || TargetFile(s.dir, target) in s.includes)
    ensures t == Step(Step(Step(s, Begin(pid, target)), Provide(pid, configured, true, false)), Swap(pid))
    ensures t.dir == s.dir && t.repoints == s.repoints && TargetFile(s.dir, target) in t.includes
    ensures pid in t.swaps && t.swaps[pid] == Swapping(target)
    ensures t.links == Symlink.Step(s.links, Symlink.Spawn(pid, TargetFile(s.dir, target)))
  {
    var begun := Step(s, Begin(pid, target));
    var ready := Step(begun, Provide(pid, configured, true, false));
    assert ready.swaps[pid] == Ready(target) && !Busy(ready, pid);
    t := Step(ready, Swap(pid));
  }

  /** The three calls of the link's swap. */
  lemma LinkSwaps(s: Symlink.System, pid: Symlink.Pid, target: string) returns (t: Symlink.System)
    requires Symlink.In(s, pid, Symlink.Begun) && s.procs[pid].target == target
    ensures var cleared := Symlink.Step(s, Symlink.Clear(pid, true));
            var linked := Symlink.Step(cleared, Symlink.Link(pid, true));
            && cleared.renames == s.renames && linked.renames == s.renames
            && t == Symlink.Step(linked, Symlink.Rename(pid, true))
    ensures t.renames == s.renames + [target] && s.active in t.links && t.links[s.active] == target
  {
    var cleared := Symlink.Step(s, Symlink.Clear(pid, true));
    assert Symlink.In(cleared, pid, Symlink.Cleared) && cleared.procs[pid].target == target;
    var linked := Symlink.Step(cleared, Symlink.Link(pid, true));
    assert Symlink.In(linked, pid, Symlink.Linked) && linked.links[Symlink.TmpName(s.active, pid)] == target;
    t := Symlink.Step(linked, Symlink.Rename(pid, true));
  }

  /**
   A swap whose calls all work, from any state: the active link then points at the
   target's include, so the current target is the one asked for if its name has no
   slash.
   */
  lemma SwapArrives(s: State, pid: Symlink.Pid, target: string, configured: bool)
    requires !Busy(s, pid) && s.links.active == ACTIVE && (configured || TargetFile(s.dir, target) in s.includes)
    ensures var ready := Step(Step(Step(s, Begin(pid, target)), Provide(pid, configured, true, false)), Swap(pid));
            var cleared := Step(ready, Links(Symlink.Clear(pid, true)));
            var linked := Step(cleared, Links(Symlink.Link(pid, true)));
            var done := Step(linked, Links(Symlink.Rename(pid, true)));
            && done.repoints == s.repoints + [target]
            && ACTIVE in done.links.links && done.links.links[ACTIVE] == TargetFile(s.dir, target) && TargetFile(s.dir, target) in done.includes
            && (CurrentTarget(done) == Some(target) <==> NoneIn(target, IsSlash))
  {
    var ready := SwapPrepares(s, pid, target, configured);
    assert Symlink.In(ready.links, pid, Symlink.Begun);
    var moved := LinkSwaps(ready.links, pid, TargetFile(s.dir, target));
    NameReadsBack(s.dir, target);
  }
}
