/**
 Failure alerting: failing runs publish a record under their invocation ID, and
 an alert looks its record up by that ID, sends it once through the hook and
 deletes it. Runs and alerts interleave, one file-system step at a time.
 */
module Alert {
  import opened Basics
  import F = FailureRecord

  type Id = string
  type AlertId = nat

  // ---------------------------------------------------------------------------
  // Publishing a record

  datatype WriteError = BadId | TooLarge | NoDirectory | Unwritable

  /** Which of the calls of one write succeed. */
  datatype WriteFaults = WriteFaults(mkdir: bool, partial: bool, rename: bool, cleanup: bool)

  /** The records directory: what is published, and the partial files left in it. */
  class RecordDirectory {
    var published: map<Id, F.Record>
    var partials: set<Id>

    constructor ()
      ensures published == map[] && partials == {}
    {
      published := map[];
      partials := {};
    }

    /** The partial file and its rename, cleaned up when either fails. */
    method Place(id: Id, record: F.Record, faults: WriteFaults) returns (ok: bool)
      modifies this
      ensures ok <==> faults.partial && faults.rename
      ensures published == if ok then old(published)[id := record] else old(published)
      ensures faults.cleanup ==> partials == old(partials) - {id}
    {
      partials := partials + {id};
      ok := faults.partial && faults.rename;
      if ok {
        published := published[id := record];
        partials := partials - {id};
      } else if faults.cleanup {
        partials := partials - {id};
      }
    }

    /**
     `write`: redact, bound, write a partial file and rename it into place. The
     record is published whole or not at all, under its own well-formed ID and
     within the size `read` accepts, and no partial file is left when the clean-up
     works.
     */
    method Write(record: F.Record, redact: string -> string, faults: WriteFaults) returns (r: Result<F.Record, WriteError>)
      modifies this
      ensures r == Err(BadId) <==> !F.IsInvocationId(record.invocationId)
      ensures r == Err(TooLarge) <==> F.IsInvocationId(record.invocationId) && !Fits(record.(reason := redact(record.reason)))
      ensures r.Ok? ==> faults.mkdir && faults.partial && faults.rename && IsPublication(r.value, record.(reason := redact(record.reason)))
      ensures r == Err(NoDirectory) ==> !faults.mkdir
      ensures r == Err(Unwritable) ==> faults.mkdir && !(faults.partial && faults.rename)
      ensures published == if r.Ok? then old(published)[record.invocationId := r.value] else old(published)
      ensures faults.cleanup ==> partials <= old(partials)
    {
      if !F.IsInvocationId(record.invocationId) {
        return Err(BadId);
      }
      var clean := record.(reason := redact(record.reason));
      var fits, final := Bound(clean);
      if !fits {
        return Err(TooLarge);
      }
      if !faults.mkdir {
        return Err(NoDirectory);
      }
      var ok := Place(record.invocationId, final, faults);
      r := if ok then Ok(final) else Err(Unwritable);
    }
  }

  /** Whether a record fits as it is, or at least with the mark for its reason. */
  ghost predicate Fits(record: F.Record) {
    F.Size(record) <= F.MAX_BYTES || F.Size(record.(reason := F.MARK)) <= F.MAX_BYTES
  }

  /** Within the bound, and the same record but for a cut reason. */
  ghost predicate IsPublication(final: F.Record, record: F.Record) {
    && F.Size(final) <= F.MAX_BYTES && final == record.(reason := final.reason)
    && (final.reason == record.reason || F.IsCut(final.reason, record.reason, F.MARK))
  }

  method Bound(record: F.Record) returns (fits: bool, final: F.Record)
    ensures fits <==> Fits(record)
    ensures fits ==> IsPublication(final, record)
  {
    var body, cut := F.Bounded(record);
    fits, final := body.Some?, cut;
  }

  // ---------------------------------------------------------------------------
  // The protocol

  /** A published file: which publication it is, under which ID, and its record if it reads. */
  datatype File = File(serial: nat, id: Id, record: Option<F.Record>)

  datatype Phase = Looking | Looked | Delivered | Finished

  /** One alert: its unit, the ID it was given, whether a sink is configured, and what it found when it looked. */
  datatype Alert = Alert(unit_: string, id: Option<Id>, sink: bool, phase: Phase, found: Option<File>, lookedAt: nat)

  /** One call of the hook. Without a matching record it points at the journal. */
  datatype Delivery = Delivery(alert: AlertId, file: Option<File>)

  datatype State = State(dir: map<Id, File>, next: nat, alerts: map<AlertId, Alert>, sent: seq<Delivery>)

  /**
   `Publish` is a rename into place by a failing run or by anything else that can
   write there; the other four are the steps of one alert.
   */
  datatype Event =
    | Publish(id: Id, record: Option<F.Record>)
    | Begin(alert: AlertId, unit_: string, given: Option<Id>, sink: bool)
    | Look(alert: AlertId)
    | Deliver(alert: AlertId)
    | Finish(alert: AlertId, removed: bool)

  const EMPTY := State(map[], 0, map[], [])

  predicate Open(s: State, a: AlertId) {
    a in s.alerts && s.alerts[a].phase != Finished
  }

  /** An ID that has the shape of one; anything else is never looked up. */
  function Usable(id: Option<Id>): Option<Id> {
    if id.Some? && F.IsInvocationId(id.value) then id else None
  }

  /** Alerts for one ID do not overlap. */
  predicate MayBegin(s: State, a: AlertId, id: Option<Id>) {
    a !in s.alerts && (Usable(id).Some? ==> forall b | b in s.alerts :: Open(s, b) ==> s.alerts[b].id != Usable(id))
  }

  /** The record an alert sends: the one it found, if it is for this unit and this ID. */
  function Matched(a: Alert): Option<File> {
    if a.found.Some? && a.found.value.record.Some?
       && Some(a.found.value.record.value.invocationId) == a.id && a.found.value.record.value.unit_ == a.unit_
    then a.found else None
  }

  function Step(s: State, e: Event): State {
    match e
    case Publish(id, record) => s.(dir := s.dir[id := File(s.next, id, record)], next := s.next + 1)
    case Begin(a, unit_, id, sink) =>
      if !MayBegin(s, a, id) then s
      else s.(alerts := s.alerts[a := Alert(unit_, Usable(id), sink, Looking, None, 0)])
    case Look(a) =>
      if !Open(s, a) || s.alerts[a].phase != Looking then s
      else
        var id := s.alerts[a].id;
        var found := if id.Some? && id.value in s.dir && s.dir[id.value].record.Some? then Some(s.dir[id.value]) else None;
        s.(alerts := s.alerts[a := s.alerts[a].(phase := Looked, found := found, lookedAt := s.next)])
    case Deliver(a) =>
      if !Open(s, a) || s.alerts[a].phase != Looked then s
      else
        s.(alerts := s.alerts[a := s.alerts[a].(phase := Delivered)],
           sent := if s.alerts[a].sink then s.sent + [Delivery(a, Matched(s.alerts[a]))] else s.sent)
    case Finish(a, removed) =>
      if !Open(s, a) || s.alerts[a].phase != Delivered then s
      else
        s.(alerts := s.alerts[a := s.alerts[a].(phase := Finished)],
           dir := if s.alerts[a].found.Some? && removed then s.dir - {s.alerts[a].found.value.id} else s.dir)
  }

  function Run(s: State, events: seq<Event>): State {
    if events == [] then s else Step(Run(s, events[..|events| - 1]), events[|events| - 1])
  }

  // ---------------------------------------------------------------------------
  // What every run keeps, as long as removals succeed

  ghost predicate InDir(s: State, f: File) {
    f.id in s.dir && s.dir[f.id] == f
  }

  ghost predicate DirFits(s: State) {
    forall id :: id in s.dir ==> s.dir[id].id == id && s.dir[id].serial < s.next
  }

  ghost predicate AlertFits(s: State, a: AlertId)
    requires a in s.alerts
  {
    var al := s.alerts[a];
    && (al.phase == Looking ==> al.found == None) && al.lookedAt <= s.next
    && (al.found.Some? ==> al.id == Some(al.found.value.id) && al.found.value.serial < al.lookedAt && al.found.value.record.Some?)
    && (al.phase == Finished && al.found.Some? ==> !InDir(s, al.found.value))
    && (al.phase == Looked || al.phase == Delivered ==>
          al.found.None? && al.id.Some? && al.id.value in s.dir ==>
            s.dir[al.id.value].serial >= al.lookedAt || s.dir[al.id.value].record.None?)
  }

  /** No two alerts hold the same file, and no two open ones the same ID. */
  ghost predicate Apart(s: State, a: AlertId, b: AlertId)
    requires a in s.alerts && b in s.alerts
  {
    && (s.alerts[a].found.Some? ==> s.alerts[b].found != s.alerts[a].found)
    && (s.alerts[a].phase != Finished && s.alerts[b].phase != Finished && s.alerts[a].id.Some? ==> s.alerts[a].id != s.alerts[b].id)
  }

  function Deliveries(sent: seq<Delivery>, a: AlertId): nat {
    if sent == [] then 0
    else Deliveries(sent[..|sent| - 1], a) + if sent[|sent| - 1].alert == a then 1 else 0
  }

  /** How many deliveries an alert has made by its phase. */
  function Due(s: State, a: AlertId): nat {
    if a in s.alerts && s.alerts[a].sink && (s.alerts[a].phase == Delivered || s.alerts[a].phase == Finished) then 1 else 0
  }

  ghost predicate SentFits(s: State, d: Delivery) {
    && d.alert in s.alerts && (s.alerts[d.alert].phase == Delivered || s.alerts[d.alert].phase == Finished)
    && d.file == Matched(s.alerts[d.alert])
  }

  ghost predicate Inv(s: State) {
    && DirFits(s)
    && (forall a :: a in s.alerts ==> AlertFits(s, a))
    && (forall a, b :: a in s.alerts && b in s.alerts && a != b ==> Apart(s, a, b))
    && (forall a :: Deliveries(s.sent, a) == Due(s, a))
    && (forall i :: 0 <= i < |s.sent| ==> SentFits(s, s.sent[i]))
  }

  lemma DeliveriesGrow(sent: seq<Delivery>, d: Delivery, a: AlertId)
    ensures Deliveries(sent + [d], a) == Deliveries(sent, a) + if d.alert == a then 1 else 0
  {
    assert (sent + [d])[..|sent + [d]| - 1] == sent;
  }

  lemma PublishKeeps(s: State, e: Event)
    requires Inv(s) && e.Publish?
    ensures Inv(Step(s, e))
  {
    var t := Step(s, e);
    forall a | a in t.alerts ensures AlertFits(t, a) {
      assert AlertFits(s, a);
    }
    forall a, b | a in t.alerts && b in t.alerts && a != b ensures Apart(t, a, b) {
      assert Apart(s, a, b);
    }
    forall i | 0 <= i < |t.sent| ensures SentFits(t, t.sent[i]) {
      assert SentFits(s, s.sent[i]);
    }
    forall a ensures Deliveries(t.sent, a) == Due(t, a) {
      assert Due(t, a) == Due(s, a);
    }
  }

  lemma BeginKeeps(s: State, e: Event)
    requires Inv(s) && e.Begin?
    ensures Inv(Step(s, e))
  {
    var t := Step(s, e);
    forall a | a in t.alerts ensures AlertFits(t, a) {
      assert a in s.alerts ==> AlertFits(s, a);
    }
    forall a, b | a in t.alerts && b in t.alerts && a != b ensures Apart(t, a, b) {
      assert a in s.alerts && b in s.alerts ==> Apart(s, a, b);
    }
    forall i | 0 <= i < |t.sent| ensures SentFits(t, t.sent[i]) {
      assert SentFits(s, s.sent[i]);
    }
    forall a ensures Deliveries(t.sent, a) == Due(t, a) {
      assert Due(t, a) == Due(s, a);
    }
  }

  /** A file another alert holds is not there to be found. */
  lemma LookFindsNew(s: State, a: AlertId, b: AlertId)
    requires Inv(s) && Open(s, a) && s.alerts[a].phase == Looking && b in s.alerts && a != b
    requires s.alerts[a].id.Some? && s.alerts[a].id.value in s.dir
    ensures s.alerts[b].found != Some(s.dir[s.alerts[a].id.value])
  {
    assert AlertFits(s, b) && Apart(s, a, b);
  }

  lemma LookKeeps(s: State, e: Event)
    requires Inv(s) && e.Look?
    ensures Inv(Step(s, e))
  {
    var t := Step(s, e);
    if Open(s, e.alert) && s.alerts[e.alert].phase == Looking {
      forall a | a in t.alerts ensures AlertFits(t, a) {
        assert AlertFits(s, a);
      }
      forall a, b | a in t.alerts && b in t.alerts && a != b ensures Apart(t, a, b) {
        assert Apart(s, a, b);
        if t.alerts[e.alert].found.Some? {
          if a == e.alert {
            LookFindsNew(s, a, b);
          } else if b == e.alert {
            LookFindsNew(s, b, a);
          }
        }
      }
      forall i | 0 <= i < |t.sent| ensures SentFits(t, t.sent[i]) {
        assert SentFits(s, s.sent[i]);
      }
      forall a ensures Deliveries(t.sent, a) == Due(t, a) {
        assert Due(t, a) == Due(s, a);
      }
    }
  }

  lemma DeliverKeeps(s: State, e: Event)
    requires Inv(s) && e.Deliver?
    ensures Inv(Step(s, e))
  {
    var t := Step(s, e);
    if Open(s, e.alert) && s.alerts[e.alert].phase == Looked {
      forall a | a in t.alerts ensures AlertFits(t, a) {
        assert AlertFits(s, a);
      }
      forall a, b | a in t.alerts && b in t.alerts && a != b ensures Apart(t, a, b) {
        assert Apart(s, a, b);
      }
      forall i | 0 <= i < |t.sent| ensures SentFits(t, t.sent[i]) {
        if i < |s.sent| {
          assert t.sent[i] == s.sent[i] && SentFits(s, s.sent[i]);
        }
      }
      forall a ensures Deliveries(t.sent, a) == Due(t, a) {
        assert Deliveries(s.sent, a) == Due(s, a);
        if s.alerts[e.alert].sink {
          DeliveriesGrow(s.sent, Delivery(e.alert, Matched(s.alerts[e.alert])), a);
        }
      }
    }
  }

  lemma FinishKeeps(s: State, e: Event)
    requires Inv(s) && e.Finish? && e.removed
    ensures Inv(Step(s, e))
  {
    var t := Step(s, e);
    if Open(s, e.alert) && s.alerts[e.alert].phase == Delivered {
      forall a | a in t.alerts ensures AlertFits(t, a) {
        assert AlertFits(s, a);
      }
      forall a, b | a in t.alerts && b in t.alerts && a != b ensures Apart(t, a, b) {
        assert Apart(s, a, b);
      }
      forall i | 0 <= i < |t.sent| ensures SentFits(t, t.sent[i]) {
        assert SentFits(s, s.sent[i]);
      }
      forall a ensures Deliveries(t.sent, a) == Due(t, a) {
        assert Due(t, a) == Due(s, a);
      }
    }
  }

  ghost predicate RemovalsSucceed(events: seq<Event>) {
    forall i :: 0 <= i < |events| && events[i].Finish? ==> events[i].removed
  }

  lemma {:induction false} RunKeeps(events: seq<Event>)
    requires RemovalsSucceed(events)
    ensures Inv(Run(EMPTY, events))
  {
    if events != [] {
      var e := events[|events| - 1];
      RunKeeps(events[..|events| - 1]);
      var s := Run(EMPTY, events[..|events| - 1]);
      match e {
        case Publish(_, _) => PublishKeeps(s, e);
        case Begin(_, _, _, _) => BeginKeeps(s, e);
        case Look(_) => LookKeeps(s, e);
        case Deliver(_) => DeliverKeeps(s, e);
        case Finish(_, _) => FinishKeeps(s, e);
      }
    }
  }

  lemma {:induction false} TwoDeliveries(sent: seq<Delivery>, i: nat, j: nat)
    requires i < j < |sent| && sent[i].alert == sent[j].alert
    ensures Deliveries(sent, sent[i].alert) >= 2
  {
    if j < |sent| - 1 {
      TwoDeliveries(sent[..|sent| - 1], i, j);
    } else {
      OneDelivery(sent[..|sent| - 1], i);
    }
  }

  lemma {:induction false} OneDelivery(sent: seq<Delivery>, i: nat)
    requires i < |sent|
    ensures Deliveries(sent, sent[i].alert) >= 1
  {
    if i < |sent| - 1 {
      OneDelivery(sent[..|sent| - 1], i);
    }
  }

  /**
   Over every interleaving of runs and alerts whose removals succeed: no published
   record reaches the hook twice, a record is sent only by an alert for its own
   unit and its own ID, and an alert with a sink makes exactly one delivery, one
   without a sink none.
   */
  lemma SentAtMostOnce(events: seq<Event>)
    requires RemovalsSucceed(events)
    ensures var s := Run(EMPTY, events);
            && (forall i, j :: 0 <= i < j < |s.sent| && s.sent[i].file.Some? ==> s.sent[i].file != s.sent[j].file)
            && (forall i :: 0 <= i < |s.sent| && s.sent[i].file.Some? ==>
                  && s.sent[i].alert in s.alerts && s.sent[i].file.value.record.Some?
                  && s.sent[i].file.value.record.value.unit_ == s.alerts[s.sent[i].alert].unit_
                  && Some(s.sent[i].file.value.record.value.invocationId) == s.alerts[s.sent[i].alert].id)
            && (forall a :: a in s.alerts && s.alerts[a].phase == Finished ==>
                  Deliveries(s.sent, a) == if s.alerts[a].sink then 1 else 0)
  {
    RunKeeps(events);
    var s := Run(EMPTY, events);
    forall i, j | 0 <= i < j < |s.sent| && s.sent[i].file.Some? ensures s.sent[i].file != s.sent[j].file {
      assert SentFits(s, s.sent[i]) && SentFits(s, s.sent[j]);
      var a, b := s.sent[i].alert, s.sent[j].alert;
      if a == b {
        TwoDeliveries(s.sent, i, j);
      } else {
        assert Apart(s, a, b);
      }
    }
    forall i | 0 <= i < |s.sent| && s.sent[i].file.Some?
      ensures s.sent[i].alert in s.alerts && s.sent[i].file == Matched(s.alerts[s.sent[i].alert])
    {
      assert SentFits(s, s.sent[i]);
    }
    forall a | a in s.alerts && s.alerts[a].phase == Finished
      ensures Deliveries(s.sent, a) == if s.alerts[a].sink then 1 else 0
    {
      assert Deliveries(s.sent, a) == Due(s, a);
    }
  }

  /** What an alert is due to send when it looks: the readable record under its ID, if it names this ID and this unit. */
  ghost predicate IsDue(s: State, a: AlertId, f: File)
    requires a in s.alerts
  {
    && s.alerts[a].id.Some? && s.alerts[a].id.value in s.dir && f == s.dir[s.alerts[a].id.value]
    && f.record.Some? && f.record.value.invocationId == s.alerts[a].id.value && f.record.value.unit_ == s.alerts[a].unit_
  }

  ghost predicate IsAllDue(s: State, a: AlertId, file: Option<File>)
    requires a in s.alerts
  {
    forall f :: file == Some(f) <==> IsDue(s, a, f)
  }

  /** Between its look and its delivery nothing changes what an alert found. */
  lemma {:induction false} FoundIsKept(s: State, a: AlertId, events: seq<Event>)
    requires a in s.alerts && s.alerts[a].phase == Looked && Deliver(a) !in events
    ensures a in Run(s, events).alerts && Run(s, events).alerts[a] == s.alerts[a]
  {
    if events != [] {
      var earlier := events[..|events| - 1];
      assert events == earlier + [events[|events| - 1]];
      FoundIsKept(s, a, earlier);
    }
  }

  /**
   An alert with a sink sends exactly one thing: the matching record that was there
   when it looked, or the pointer to the journal when there was none. Whatever runs
   and other alerts do in between, a record published over it or removed included,
   makes no difference.
   */
  lemma SendsWhatItFound(s: State, a: AlertId, events: seq<Event>)
    requires Open(s, a) && s.alerts[a].phase == Looking && s.alerts[a].sink && Deliver(a) !in events
    ensures var t := Run(Step(s, Look(a)), events);
            exists file :: Step(t, Deliver(a)).sent == t.sent + [Delivery(a, file)] && IsAllDue(s, a, file)
  {
    var looked := Step(s, Look(a));
    FoundIsKept(looked, a, events);
    var file := Matched(looked.alerts[a]);
    assert Step(Run(looked, events), Deliver(a)).sent == Run(looked, events).sent + [Delivery(a, file)];
    assert IsAllDue(s, a, file);
  }

  /**
   When an alert finishes, no record for its ID remains, unless one was published
   after the alert looked, or what was there does not read as a record.
   */
  lemma FinishLeavesNothing(events: seq<Event>, a: AlertId)
    requires RemovalsSucceed(events) && Open(Run(EMPTY, events), a) && Run(EMPTY, events).alerts[a].phase == Delivered
    requires Run(EMPTY, events).alerts[a].id.Some?
    ensures var s := Run(EMPTY, events);
            var id := s.alerts[a].id.value;
            var t := Step(s, Finish(a, true));
            && (id in t.dir <==> id in s.dir && s.alerts[a].found.None?)
            && (id in t.dir ==> t.dir[id].serial >= s.alerts[a].lookedAt || t.dir[id].record.None?)
  {
    RunKeeps(events);
    assert AlertFits(Run(EMPTY, events), a);
  }

  /**
   Why removals must succeed: after a delivery whose removal fails, the next alert
   for the same unit and ID sends the same file again.
   */
  lemma FailedRemovalSendsTwice(s: State, a: AlertId, b: AlertId, f: File)
    requires Open(s, a) && s.alerts[a].phase == Delivered && Matched(s.alerts[a]) == Some(f) && InDir(s, f) && s.alerts[a].id == Some(f.id)
    requires F.IsInvocationId(f.id) && b !in s.alerts
    requires forall c :: c in s.alerts && c != a && Open(s, c) ==> s.alerts[c].id != Some(f.id)
    ensures var s1 := Step(s, Finish(a, false));
            var s2 := Step(s1, Begin(b, s.alerts[a].unit_, Some(f.id), true));
            Step(Step(s2, Look(b)), Deliver(b)).sent == s.sent + [Delivery(b, Some(f))]
  {
    var s1 := Step(s, Finish(a, false));
    assert MayBegin(s1, b, Some(f.id)) && s1.dir == s.dir;
    var s2 := Step(s1, Begin(b, s.alerts[a].unit_, Some(f.id), true));
    assert s2.alerts[b] == Alert(s.alerts[a].unit_, Some(f.id), true, Looking, None, 0) && s2.dir == s.dir;
    var s3 := Step(s2, Look(b));
    assert s3.alerts[b].found == Some(f);
  }
}
