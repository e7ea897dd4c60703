/**
 Draining and reattaching hosts in a configuration file, for any grammar of
 directives: how a block is scanned, what an edit of one line changes, and what
 any run of edits leaves of the whole fleet. The nginx grammar is in `Upstream`.
 */
module PoolFile {
  import opened Basics
  import opened Text

  /** What the scan and the rewrite ask of one raw line. */
  datatype Grammar = Grammar(
    opens: string -> bool,
    closes: string -> bool,
    host: string -> Option<string>,
    stated: string -> Membership,
    set_: (string, bool) -> string)

  function Asked(down: bool): PoolState {
    if down then Removed else InPool
  }

  /**
   A grammar is lawful for a class of simple lines when rewriting one keeps it a
   simple line of the same host and weight, down as asked, and when a carriage
   return at the end of a line means nothing.
   */
  ghost predicate Lawful(g: Grammar, simple: string -> bool) {
    && (forall raw, down :: simple(raw) ==> RewriteKeeps(g, simple, raw, down))
    && (forall raw :: CrIsBlank(g, simple, raw))
    && (forall raw, down :: '\n' !in raw ==> '\n' !in g.set_(raw, down))
    && (forall raw :: g.stated(raw).state != Draining)
  }

  ghost predicate RewriteKeeps(g: Grammar, simple: string -> bool, raw: string, down: bool) {
    var line := g.set_(raw, down);
    && simple(line) && !g.closes(line) && g.host(line) == g.host(raw)
    && g.stated(line) == Membership(Asked(down), g.stated(raw).weight)
  }

  ghost predicate CrIsBlank(g: Grammar, simple: string -> bool, raw: string) {
    var line := StripCr(raw);
    && g.opens(line) == g.opens(raw) && g.closes(line) == g.closes(raw) && g.host(line) == g.host(raw)
    && g.stated(line) == g.stated(raw) && simple(line) == simple(raw)
  }

  // ---------------------------------------------------------------------------
  // The scan

  /** Skip to the line that opens the block, then look for the host until a line closes it. */
  function Scan(g: Grammar, lines: seq<string>, token: string, inBlock: bool, index: nat): (r: Option<nat>)
    ensures r.Some? ==>
              index <= r.value < index + |lines|
              && g.host(lines[r.value - index]) == Some(token) && !g.closes(lines[r.value - index])
  {
    if lines == [] then None
    else if !inBlock then Scan(g, lines[1..], token, g.opens(lines[0]), index + 1)
    else if g.closes(lines[0]) then None
    else if g.host(lines[0]) == Some(token) then Some(index)
    else Scan(g, lines[1..], token, true, index + 1)
  }

  /** `locate`: the line of the host's directive, and what it states. */
  function Locate(g: Grammar, lines: seq<string>, token: string): (r: Option<(nat, Membership)>)
    ensures r.Some? ==> r.value.0 < |lines|
  {
    var at := Scan(g, lines, token, false, 0);
    if at.None? then None else Some((at.value, g.stated(lines[at.value])))
  }

  /** The loop of the source, with its `in_block` flag. */
  method FindServer(g: Grammar, lines: seq<string>, token: string) returns (found: Option<(nat, Membership)>)
    ensures found == Locate(g, lines, token)
  {
    var inBlock := false;
    var index := 0;
    assert lines[0..] == lines;
    while index < |lines|
      invariant 0 <= index <= |lines|
      invariant Scan(g, lines, token, false, 0) == Scan(g, lines[index..], token, inBlock, index)
    {
      var raw := lines[index];
      assert lines[index..][0] == raw && lines[index..][1..] == lines[index + 1..];
      if !inBlock {
        inBlock := g.opens(raw);
      } else {
        if g.closes(raw) {
          return None;
        }
        if g.host(raw) == Some(token) {
          return Some((index, g.stated(raw)));
        }
      }
      index := index + 1;
    }
    found := None;
  }

  /** Replacing a found line by one of the same host that does not close the block changes no scan. */
  lemma {:induction false} ScanReplace(g: Grammar, lines: seq<string>, token: string, other: string, inBlock: bool, index: nat, at: nat, line: string)
    requires Scan(g, lines, token, inBlock, index) == Some(at) && index <= at < index + |lines|
    requires !g.closes(line) && g.host(line) == g.host(lines[at - index])
    ensures Scan(g, lines[at - index := line], other, inBlock, index) == Scan(g, lines, other, inBlock, index)
  {
    var edited := lines[at - index := line];
    if at == index {
      // A scan outside the block moves on, so the line found here was inside it.
      assert inBlock;
      assert edited[1..] == lines[1..];
    } else {
      assert edited[0] == lines[0] && edited[1..] == lines[1..][at - index - 1 := line];
      ScanReplace(g, lines[1..], token, other, if inBlock then true else g.opens(lines[0]), index + 1, at, line);
    }
  }

  lemma {:induction false} ScanForgetsCr(g: Grammar, simple: string -> bool, lines: seq<string>, token: string, inBlock: bool, index: nat)
    requires Lawful(g, simple)
    ensures Scan(g, StripCrs(lines), token, inBlock, index) == Scan(g, lines, token, inBlock, index)
  {
    if lines != [] {
      assert CrIsBlank(g, simple, lines[0]);
      assert StripCrs(lines)[1..] == StripCrs(lines[1..]);
      ScanForgetsCr(g, simple, lines[1..], token, if inBlock then true else g.opens(lines[0]), index + 1);
    }
  }

  lemma LocateForgetsCr(g: Grammar, simple: string -> bool, lines: seq<string>, token: string)
    requires Lawful(g, simple)
    ensures Locate(g, StripCrs(lines), token) == Locate(g, lines, token)
  {
    ScanForgetsCr(g, simple, lines, token, false, 0);
    var at := Scan(g, lines, token, false, 0);
    if at.Some? {
      assert CrIsBlank(g, simple, lines[at.value]);
    }
  }

  /** The edited directive is found where it was; every other host is found as before. */
  lemma LocateAfterEdit(g: Grammar, simple: string -> bool, lines: seq<string>, token: string, down: bool, other: string)
    requires Lawful(g, simple)
    requires Locate(g, lines, token).Some? && simple(lines[Locate(g, lines, token).value.0])
    ensures var (at, prior) := Locate(g, lines, token).value;
            Locate(g, lines[at := g.set_(lines[at], down)], other)
            == if other == token then Some((at, Membership(Asked(down), prior.weight))) else Locate(g, lines, other)
  {
    var (at, prior) := Locate(g, lines, token).value;
    assert RewriteKeeps(g, simple, lines[at], down);
    ScanReplace(g, lines, token, other, false, 0, at, g.set_(lines[at], down));
  }

  // ---------------------------------------------------------------------------
  // One edit of the text

  /** `apply` on the text: the new text and the membership before it. */
  function Edit(g: Grammar, content: string, token: string, down: bool): Option<(string, Membership)> {
    var lines := Lines(content);
    var found := Locate(g, lines, token);
    if found.None? then None
    else
      var (index, prior) := found.value;
      Some((Join(lines[index := g.set_(lines[index], down)], "\n") + "\n", prior))
  }

  /** Where a host's directive is in the text, and what it states. */
  function Place(g: Grammar, content: string, token: string): Option<(nat, Membership)> {
    Locate(g, Lines(content), token)
  }

  /** A host found on a simple directive. */
  ghost predicate IsManaged(g: Grammar, simple: string -> bool, content: string, token: string) {
    var found := Locate(g, Lines(content), token);
    found.Some? && simple(Lines(content)[found.value.0])
  }

  /** The rewritten text reads back as the edited lines. */
  lemma EditedLines(g: Grammar, simple: string -> bool, content: string, token: string, down: bool)
    requires Lawful(g, simple) && Edit(g, content, token, down).Some?
    ensures var lines := Lines(content);
            var index := Place(g, content, token).value.0;
            Lines(Edit(g, content, token, down).value.0) == StripCrs(lines[index := g.set_(lines[index], down)])
  {
    var lines := Lines(content);
    var index := Place(g, content, token).value.0;
    var edited := lines[index := g.set_(lines[index], down)];
    assert lines[index] in lines;
    forall l | l in edited ensures '\n' !in l {
      assert l == g.set_(lines[index], down) || l in lines;
    }
    JoinedLines(edited);
    LinesOfUnlines(edited);
  }

  /**
   Draining or reattaching one host: its directive keeps its line and its weight
   and takes the state asked for, every other host is found exactly as before,
   every other line is kept up to one carriage return, and every managed host
   stays managed.
   */
  lemma EditOnlyItsHost(g: Grammar, simple: string -> bool, content: string, token: string, down: bool, other: string)
    requires Lawful(g, simple) && IsManaged(g, simple, content, token)
    ensures Edit(g, content, token, down).Some?
    ensures var (index, prior) := Place(g, content, token).value;
            var (text, reported) := Edit(g, content, token, down).value;
            && reported == prior
            && Place(g, text, other)
               == (if other == token then Some((index, Membership(Asked(down), prior.weight))) else Place(g, content, other))
            && |Lines(text)| == |Lines(content)|
            && (forall i :: 0 <= i < |Lines(text)| && i != index ==> Lines(text)[i] == StripCr(Lines(content)[i]))
            && (IsManaged(g, simple, content, other) ==> IsManaged(g, simple, text, other))
  {
    var lines := Lines(content);
    var (index, prior) := Place(g, content, token).value;
    var edited := lines[index := g.set_(lines[index], down)];
    EditedLines(g, simple, content, token, down);
    LocateAfterEdit(g, simple, lines, token, down, other);
    LocateForgetsCr(g, simple, edited, other);
    if IsManaged(g, simple, content, other) {
      var at := Place(g, content, other).value.0;
      assert RewriteKeeps(g, simple, lines[index], down);
      assert CrIsBlank(g, simple, edited[at]);
    }
  }

  /** Which of the steps of an edit go through. */
  datatype Faults = Faults(read: bool, backup: bool, write: bool, rename: bool, reload: bool)

  datatype LbError = CannotRead | NotFound | CannotWrite | ReloadFailed

  /** What an edit leaves in the file and in its backup, and what it reports, by the steps that go through. */
  function Applied(g: Grammar, config: string, backup: Option<string>, token: string, down: bool, faults: Faults)
    : (string, Option<string>, Result<Membership, LbError>)
  {
    var edit := Edit(g, config, token, down);
    if !faults.read then (config, backup, Err(CannotRead))
    else if edit.None? then (config, backup, Err(NotFound))
    else
      var kept := if faults.backup then Some(config) else backup;
      if !(faults.write && faults.rename) then (config, kept, Err(CannotWrite))
      else (edit.value.0, kept, if faults.reload then Ok(edit.value.1) else Err(ReloadFailed))
  }

  /**
   When an edit succeeds and what it leaves, step by step: the file is replaced
   exactly when it could be read, names the host, and both the write and the rename
   went through; the backup is the file as it was; the report is the membership
   found before the edit, or the first step that failed.
   */
  lemma AppliedIff(g: Grammar, config: string, backup: Option<string>, token: string, down: bool, faults: Faults)
    ensures var (text, kept, r) := Applied(g, config, backup, token, down, faults);
            var found := Place(g, config, token);
            && (r.Ok? <==> faults.read && found.Some? && faults.write && faults.rename && faults.reload)
            && (r.Ok? ==> r.value == found.value.1)
            && (r == Err(CannotRead) <==> !faults.read)
            && (r == Err(NotFound) <==> faults.read && found.None?)
            && (r == Err(CannotWrite) <==> faults.read && found.Some? && !(faults.write && faults.rename))
            && (r == Err(ReloadFailed) <==> faults.read && found.Some? && faults.write && faults.rename && !faults.reload)
            && (r.Ok? || r == Err(ReloadFailed) ==> Edit(g, config, token, down).Some? && text == Edit(g, config, token, down).value.0)
            && (!r.Ok? && r != Err(ReloadFailed) ==> text == config)
            && kept == (if faults.read && found.Some? && faults.backup then Some(config) else backup)
  {
  }

  /** The adapter and the configuration file it edits in place. */
  class LbAdapter {
    const grammar: Grammar
    var config: string
    var backup: Option<string>
    var reloads: nat

    constructor (grammar: Grammar, config: string)
      ensures this.grammar == grammar && this.config == config && backup == None && reloads == 0
    {
      this.grammar := grammar;
      this.config := config;
      backup := None;
      reloads := 0;
    }

    /**
     `apply`: read, toggle, write a temporary and rename it over the file, reload.
     The file is replaced whole or not at all; a reload that fails afterwards is
     reported although the file has changed.
     */
    method Apply(token: string, down: bool, faults: Faults) returns (r: Result<Membership, LbError>)
      modifies this
      ensures (config, backup, r) == Applied(grammar, old(config), old(backup), token, down, faults)
      ensures config == old(config) || (Edit(grammar, old(config), token, down).Some? && config == Edit(grammar, old(config), token, down).value.0)
      ensures r.Ok? ==> Locate(grammar, Lines(old(config)), token).Some? && r.value == Locate(grammar, Lines(old(config)), token).value.1
      ensures reloads == old(reloads) + if r.Ok? then 1 else 0
    {
      if !faults.read {
        return Err(CannotRead);
      }
      var lines := Lines(config);
      var found := FindServer(grammar, lines, token);
      if found.None? {
        return Err(NotFound);
      }
      var (index, prior) := found.value;
      lines := lines[index := grammar.set_(lines[index], down)];
      var rewritten := Join(lines, "\n") + "\n";
      if faults.backup {
        backup := Some(config);
      }
      if !faults.write || !faults.rename {
        return Err(CannotWrite);
      }
      config := rewritten;
      if !faults.reload {
        return Err(ReloadFailed);
      }
      reloads := reloads + 1;
      r := Ok(prior);
    }

    /** `drain`. */
    method Drain(token: string, faults: Faults) returns (r: Result<Membership, LbError>)
      modifies this
      ensures (config, backup, r) == Applied(grammar, old(config), old(backup), token, true, faults)
      ensures reloads == old(reloads) + if r.Ok? then 1 else 0
    {
      r := Apply(token, true, faults);
    }

    /** `reattach`: up again if the captured membership was in the pool, down otherwise. */
    method Reattach(token: string, prior: Membership, faults: Faults) returns (r: Result<(), LbError>)
      modifies this
      ensures var a := Applied(grammar, old(config), old(backup), token, prior.state != InPool, faults);
              config == a.0 && backup == a.1 && r == if a.2.Ok? then Ok(()) else Err(a.2.error)
      ensures reloads == old(reloads) + if r.Ok? then 1 else 0
    {
      var applied := Apply(token, prior.state != InPool, faults);
      r := if applied.Ok? then Ok(()) else Err(applied.error);
    }
  }

  // ---------------------------------------------------------------------------
  // A fleet of hosts in one file

  /** A drain captures the membership it finds, the first time; a reattach gives it back. */
  datatype Op = Drain(host: string) | Reattach(host: string)

  datatype Fleet = Fleet(content: string, captured: map<string, Membership>)

  function Step(g: Grammar, f: Fleet, op: Op): Fleet {
    match op
    case Drain(h) =>
      var e := Edit(g, f.content, h, true);
      if e.None? then f
      else Fleet(e.value.0, if h in f.captured then f.captured else f.captured[h := e.value.1])
    case Reattach(h) =>
      if h !in f.captured then f
      else
        var e := Edit(g, f.content, h, f.captured[h].state != InPool);
        if e.None? then f else f.(content := e.value.0)
  }

  function Run(g: Grammar, f: Fleet, ops: seq<Op>): Fleet {
    if ops == [] then f else Step(g, Run(g, f, ops[..|ops| - 1]), ops[|ops| - 1])
  }

  /** What a run should leave of a host: out of the pool after a drain, itself after its reattach. */
  function Expected(before: Membership, host: string, ops: seq<Op>): (m: Membership)
    ensures m.weight == before.weight
  {
    if ops == [] then before
    else
      var last := ops[|ops| - 1];
      if last == Drain(host) then before.(state := Removed)
      else if last == Reattach(host) && Drain(host) in ops then before
      else Expected(before, host, ops[..|ops| - 1])
  }

  ghost predicate HostOnTrack(g: Grammar, simple: string -> bool, content: string, ops: seq<Op>, f: Fleet, h: string) {
    && IsManaged(g, simple, content, h) && IsManaged(g, simple, f.content, h)
    && var (index, before) := Place(g, content, h).value;
    && Place(g, f.content, h) == Some((index, Expected(before, h, ops)))
    && (h in f.captured <==> Drain(h) in ops)
    && (h in f.captured ==> f.captured[h] == before)
  }

  ghost predicate OnTrack(g: Grammar, simple: string -> bool, content: string, hosts: set<string>, ops: seq<Op>, f: Fleet) {
    && (forall h :: h in hosts ==> HostOnTrack(g, simple, content, ops, f, h))
    && (forall u :: u !in hosts ==> Place(g, f.content, u) == Place(g, content, u))
  }

  lemma {:induction false} ExpectedBeforeDrain(before: Membership, host: string, ops: seq<Op>)
    requires Drain(host) !in ops
    ensures Expected(before, host, ops) == before
  {
    if ops != [] {
      assert ops[|ops| - 1] in ops;
      assert forall o :: o in ops[..|ops| - 1] ==> o in ops;
      ExpectedBeforeDrain(before, host, ops[..|ops| - 1]);
    }
  }

  lemma ExpectedAfter(before: Membership, ops: seq<Op>, op: Op)
    ensures Expected(before, op.host, ops + [op])
         == if op.Drain? then before.(state := Removed)
            else if Drain(op.host) in ops then before
            else Expected(before, op.host, ops)
    ensures Drain(op.host) in ops + [op] <==> op.Drain? || Drain(op.host) in ops
  {
    var more := ops + [op];
    assert more[..|more| - 1] == ops && more[|more| - 1] == op;
  }

  /** The operation's own host. */
  lemma OwnHostStep(g: Grammar, simple: string -> bool, content: string, ops: seq<Op>, f: Fleet, op: Op)
    requires Lawful(g, simple) && HostOnTrack(g, simple, content, ops, f, op.host)
    ensures HostOnTrack(g, simple, content, ops + [op], Step(g, f, op), op.host)
  {
    var before := Place(g, content, op.host).value.1;
    ExpectedAfter(before, ops, op);
    if op.Drain? {
      ExpectedBeforeOrLater(before, op.host, ops);
      EditOnlyItsHost(g, simple, f.content, op.host, true, op.host);
    } else if op.host in f.captured {
      EditOnlyItsHost(g, simple, f.content, op.host, before.state != InPool, op.host);
    } else {
      ExpectedBeforeDrain(before, op.host, ops);
    }
  }

  lemma ExpectedBeforeOrLater(before: Membership, host: string, ops: seq<Op>)
    ensures Drain(host) in ops || Expected(before, host, ops) == before
  {
    if Drain(host) !in ops {
      ExpectedBeforeDrain(before, host, ops);
    }
  }

  lemma ExpectedOfOther(before: Membership, host: string, ops: seq<Op>, op: Op)
    requires op.host != host
    ensures Expected(before, host, ops + [op]) == Expected(before, host, ops)
    ensures Drain(host) in ops + [op] <==> Drain(host) in ops
  {
    var more := ops + [op];
    assert more[..|more| - 1] == ops && more[|more| - 1] == op;
  }

  /** Any other host is found as before, whether or not it belongs to the fleet. */
  lemma OtherHostPlace(g: Grammar, simple: string -> bool, f: Fleet, op: Op, u: string)
    requires Lawful(g, simple) && IsManaged(g, simple, f.content, op.host) && u != op.host
    ensures Place(g, Step(g, f, op).content, u) == Place(g, f.content, u)
    ensures IsManaged(g, simple, f.content, u) ==> IsManaged(g, simple, Step(g, f, op).content, u)
  {
    var down := op.Drain? || (op.host in f.captured && f.captured[op.host].state != InPool);
    EditOnlyItsHost(g, simple, f.content, op.host, down, u);
  }

  lemma OtherHostStep(g: Grammar, simple: string -> bool, content: string, ops: seq<Op>, f: Fleet, op: Op, u: string)
    requires Lawful(g, simple) && IsManaged(g, simple, f.content, op.host) && u != op.host
    requires HostOnTrack(g, simple, content, ops, f, u)
    ensures HostOnTrack(g, simple, content, ops + [op], Step(g, f, op), u)
  {
    OtherHostPlace(g, simple, f, op, u);
    ExpectedOfOther(Place(g, content, u).value.1, u, ops, op);
    assert u in Step(g, f, op).captured <==> u in f.captured;
    assert u in f.captured ==> Step(g, f, op).captured[u] == f.captured[u];
  }

  /**
   Over every run of drains and reattaches of managed hosts, in any order and any
   number, every host of the file is found on its own line with its own weight: a
   drained one out of the pool, one reattached since its drain exactly as it was
   before the run, and one the run never names untouched.
   */
  lemma {:induction false} FleetIsRestored(g: Grammar, simple: string -> bool, content: string, hosts: set<string>, ops: seq<Op>)
    requires Lawful(g, simple)
    requires forall h :: h in hosts ==> IsManaged(g, simple, content, h)
    requires forall i :: 0 <= i < |ops| ==> ops[i].host in hosts
    ensures OnTrack(g, simple, content, hosts, ops, Run(g, Fleet(content, map[]), ops))
  {
    if ops != [] {
      var earlier, op := ops[..|ops| - 1], ops[|ops| - 1];
      FleetIsRestored(g, simple, content, hosts, earlier);
      var f := Run(g, Fleet(content, map[]), earlier);
      assert earlier + [op] == ops;
      assert HostOnTrack(g, simple, content, earlier, f, op.host);
      OwnHostStep(g, simple, content, earlier, f, op);
      forall h | h in hosts ensures HostOnTrack(g, simple, content, ops, Step(g, f, op), h) {
        if h != op.host {
          OtherHostStep(g, simple, content, earlier, f, op, h);
        }
      }
      forall u | u !in hosts ensures Place(g, Step(g, f, op).content, u) == Place(g, content, u) {
        OtherHostPlace(g, simple, f, op, u);
      }
    }
  }
}
