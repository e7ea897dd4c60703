/**
 The retention rules stated archive by archive, without the pass that applies them:
 which archives are expired, which the floor asks for, which are kept, and in which
 lists of the plan each one belongs.
 */
module RetentionRules {
  import opened Basics
  import opened Retention

  /** The archive is older than the retention allows. An age that reaches before the clock allows everything. */
  predicate IsExpired(c: Candidate, policy: Policy, now: int) {
    policy.retention.Some? && now - policy.retention.value >= EARLIEST && c.takenAt < now - policy.retention.value
  }

  /** With `newer` newer archives kept, the ceiling has room for one more. */
  predicate HasRoom(policy: Policy, newer: nat) {
    policy.keepLast.Some? ==> newer < policy.keepLast.value
  }

  /** The floor asks for an expired archive. */
  predicate IsNeeded(c: Candidate, policy: Policy, now: int, newer: nat) {
    IsExpired(c, policy, now) && HasRoom(policy, newer) && newer < policy.keepMinimum
  }

  predicate IsKept(c: Candidate, policy: Policy, now: int, verify: Candidate -> Verdict, newer: nat) {
    && HasRoom(policy, newer)
    && (!IsExpired(c, policy, now) || (!verify(c).Invalid? && newer < policy.keepMinimum))
  }

  /** How many of the archives before `i` are kept. */
  function KeptBefore(cs: seq<Candidate>, i: nat, policy: Policy, now: int, verify: Candidate -> Verdict): (n: nat)
    requires i <= |cs|
    ensures n <= i
  {
    if i == 0 then 0
    else
      var n := KeptBefore(cs, i - 1, policy, now, verify);
      if IsKept(cs[i - 1], policy, now, verify, n) then n + 1 else n
  }

  /** The lists of a plan. */
  datatype Listing = ToRemove | ToKeep | ToExempt | NamedInvalid | NamedUnverifiable | PastCeiling

  /**
   Where the rules list an archive. Young archives are kept or removed by the
   ceiling; expired ones are exempt or removed, and named with the reader's reason
   when the floor asked for them and they could not be vouched for.
   */
  predicate IsListed(at: Listing, c: Candidate, policy: Policy, now: int, verify: Candidate -> Verdict, newer: nat) {
    match at
    case ToRemove => !IsKept(c, policy, now, verify, newer)
    case ToKeep => IsKept(c, policy, now, verify, newer) && !IsExpired(c, policy, now)
    case ToExempt => IsKept(c, policy, now, verify, newer) && IsExpired(c, policy, now)
    case NamedInvalid => IsNeeded(c, policy, now, newer) && verify(c).Invalid?
    case NamedUnverifiable => IsNeeded(c, policy, now, newer) && verify(c).Unverifiable?
    case PastCeiling => !IsKept(c, policy, now, verify, newer) && !IsExpired(c, policy, now)
  }

  /** The archives listed among the first `n`, in order. */
  function ListedIn(at: Listing, cs: seq<Candidate>, n: nat, policy: Policy, now: int, verify: Candidate -> Verdict): seq<Candidate>
    requires n <= |cs|
  {
    if n == 0 then []
    else
      ListedIn(at, cs, n - 1, policy, now, verify)
      + (if IsListed(at, cs[n - 1], policy, now, verify, KeptBefore(cs, n - 1, policy, now, verify)) then [cs[n - 1]] else [])
  }

  function Reason(v: Verdict): string {
    if v.Valid? then "" else v.reason
  }

  function Reasons(cs: seq<Candidate>, verify: Candidate -> Verdict): (r: seq<(Path, string)>)
    ensures |r| == |cs| && forall i :: 0 <= i < |cs| ==> r[i] == (cs[i].path, Reason(verify(cs[i])))
  {
    seq(|cs|, i requires 0 <= i < |cs| => (cs[i].path, Reason(verify(cs[i]))))
  }

  /** The plan the rules ask for. */
  function Ruled(cs: seq<Candidate>, n: nat, policy: Policy, now: int, verify: Candidate -> Verdict): Plan
    requires n <= |cs|
  {
    Plan(Paths(ListedIn(ToRemove, cs, n, policy, now, verify)),
         Paths(ListedIn(ToKeep, cs, n, policy, now, verify)),
         Paths(ListedIn(ToExempt, cs, n, policy, now, verify)),
         Reasons(ListedIn(NamedInvalid, cs, n, policy, now, verify), verify),
         Reasons(ListedIn(NamedUnverifiable, cs, n, policy, now, verify), verify),
         Paths(ListedIn(PastCeiling, cs, n, policy, now, verify)))
  }

  // ---------------------------------------------------------------------------
  // The pass obeys the rules

  /** The entry of one archive, by the rules. */
  function EntryOf(c: Candidate, policy: Policy, now: int, verify: Candidate -> Verdict, newer: nat): Plan {
    Plan(if IsListed(ToRemove, c, policy, now, verify, newer) then [c.path] else [],
         if IsListed(ToKeep, c, policy, now, verify, newer) then [c.path] else [],
         if IsListed(ToExempt, c, policy, now, verify, newer) then [c.path] else [],
         if IsListed(NamedInvalid, c, policy, now, verify, newer) then [(c.path, Reason(verify(c)))] else [],
         if IsListed(NamedUnverifiable, c, policy, now, verify, newer) then [(c.path, Reason(verify(c)))] else [],
         if IsListed(PastCeiling, c, policy, now, verify, newer) then [c.path] else [])
  }

  /** Judging an archive by the slots spent is judging it by the rules. */
  lemma JudgedByRules(c: Candidate, policy: Policy, now: int, verify: Candidate -> Verdict, slots: nat)
    ensures var f := Judge(c, policy, policy.Cutoff(now), verify, slots);
            (Survives(f) <==> IsKept(c, policy, now, verify, slots)) && Entry(c, f) == EntryOf(c, policy, now, verify, slots)
  {
  }

  lemma PathsGrow(cs: seq<Candidate>, more: seq<Candidate>, verify: Candidate -> Verdict)
    ensures Paths(cs + more) == Paths(cs) + Paths(more) && Reasons(cs + more, verify) == Reasons(cs, verify) + Reasons(more, verify)
  {
  }

  lemma ListGrows(at: Listing, cs: seq<Candidate>, i: nat, policy: Policy, now: int, verify: Candidate -> Verdict)
    requires i < |cs|
    ensures var listed := IsListed(at, cs[i], policy, now, verify, KeptBefore(cs, i, policy, now, verify));
            && Paths(ListedIn(at, cs, i + 1, policy, now, verify))
               == Paths(ListedIn(at, cs, i, policy, now, verify)) + (if listed then [cs[i].path] else [])
            && Reasons(ListedIn(at, cs, i + 1, policy, now, verify), verify)
               == Reasons(ListedIn(at, cs, i, policy, now, verify), verify) + (if listed then [(cs[i].path, Reason(verify(cs[i])))] else [])
  {
    var listed := IsListed(at, cs[i], policy, now, verify, KeptBefore(cs, i, policy, now, verify));
    PathsGrow(ListedIn(at, cs, i, policy, now, verify), if listed then [cs[i]] else [], verify);
    assert Paths([cs[i]]) == [cs[i].path] && Reasons([cs[i]], verify) == [(cs[i].path, Reason(verify(cs[i])))];
    assert Paths([]) == [] && Reasons([], verify) == [];
  }

  lemma RuledGrows(cs: seq<Candidate>, i: nat, policy: Policy, now: int, verify: Candidate -> Verdict)
    requires i < |cs|
    ensures Ruled(cs, i + 1, policy, now, verify)
         == Ruled(cs, i, policy, now, verify).Plus(EntryOf(cs[i], policy, now, verify, KeptBefore(cs, i, policy, now, verify)))
  {
    ListGrows(ToRemove, cs, i, policy, now, verify);
    ListGrows(ToKeep, cs, i, policy, now, verify);
    ListGrows(ToExempt, cs, i, policy, now, verify);
    ListGrows(NamedInvalid, cs, i, policy, now, verify);
    ListGrows(NamedUnverifiable, cs, i, policy, now, verify);
    ListGrows(PastCeiling, cs, i, policy, now, verify);
  }

  /** One archive of the pass: the plan and the slot count before it and after it. */
  ghost predicate StepsTo(c: Candidate, policy: Policy, cutoff: Option<int>, verify: Candidate -> Verdict, plan: Plan, slots: nat, plan': Plan, slots': nat) {
    var f := Judge(c, policy, cutoff, verify, slots);
    plan' == plan.Plus(Entry(c, f)) && slots' == if Survives(f) then slots + 1 else slots
  }

  lemma RuledStep(cs: seq<Candidate>, i: nat, policy: Policy, now: int, verify: Candidate -> Verdict)
    requires i < |cs|
    ensures StepsTo(cs[i], policy, policy.Cutoff(now), verify,
                    Ruled(cs, i, policy, now, verify), KeptBefore(cs, i, policy, now, verify),
                    Ruled(cs, i + 1, policy, now, verify), KeptBefore(cs, i + 1, policy, now, verify))
  {
    RuledGrows(cs, i, policy, now, verify);
    JudgedByRules(cs[i], policy, now, verify, KeptBefore(cs, i, policy, now, verify));
  }

  lemma SweepOnward(cs: seq<Candidate>, i: nat, policy: Policy, cutoff: Option<int>, verify: Candidate -> Verdict, plan: Plan, slots: nat, plan': Plan, slots': nat)
    requires i < |cs| && StepsTo(cs[i], policy, cutoff, verify, plan, slots, plan', slots')
    requires Sweep(cs, policy, cutoff, verify, 0) == plan.Plus(Sweep(cs[i..], policy, cutoff, verify, slots))
    ensures Sweep(cs, policy, cutoff, verify, 0) == plan'.Plus(Sweep(cs[i + 1..], policy, cutoff, verify, slots'))
  {
    SweepStep(cs, i, policy, cutoff, verify, slots, plan);
  }

  lemma SweepBegins(cs: seq<Candidate>, policy: Policy, cutoff: Option<int>, verify: Candidate -> Verdict)
    ensures Sweep(cs, policy, cutoff, verify, 0) == NOTHING.Plus(Sweep(cs[0..], policy, cutoff, verify, 0))
  {
    assert cs[0..] == cs;
    PlusAssociates(Sweep(cs, policy, cutoff, verify, 0), NOTHING, NOTHING);
  }

  lemma SweepEnds(cs: seq<Candidate>, policy: Policy, cutoff: Option<int>, verify: Candidate -> Verdict, plan: Plan, slots: nat)
    requires Sweep(cs, policy, cutoff, verify, 0) == plan.Plus(Sweep(cs[|cs|..], policy, cutoff, verify, slots))
    ensures Sweep(cs, policy, cutoff, verify, 0) == plan
  {
    PlusAssociates(plan, NOTHING, NOTHING);
  }

  lemma RuledBegins(cs: seq<Candidate>, policy: Policy, now: int, verify: Candidate -> Verdict)
    ensures Ruled(cs, 0, policy, now, verify) == NOTHING && KeptBefore(cs, 0, policy, now, verify) == 0
  {
  }

  lemma {:induction false} SweepSoFar(cs: seq<Candidate>, i: nat, policy: Policy, now: int, verify: Candidate -> Verdict)
    requires i <= |cs|
    ensures Sweep(cs, policy, policy.Cutoff(now), verify, 0)
         == Ruled(cs, i, policy, now, verify).Plus(Sweep(cs[i..], policy, policy.Cutoff(now), verify, KeptBefore(cs, i, policy, now, verify)))
  {
    if i == 0 {
      RuledBegins(cs, policy, now, verify);
      SweepBegins(cs, policy, policy.Cutoff(now), verify);
    } else {
      SweepSoFar(cs, i - 1, policy, now, verify);
      RuledStep(cs, i - 1, policy, now, verify);
      SweepOnward(cs, i - 1, policy, policy.Cutoff(now), verify,
                  Ruled(cs, i - 1, policy, now, verify), KeptBefore(cs, i - 1, policy, now, verify),
                  Ruled(cs, i, policy, now, verify), KeptBefore(cs, i, policy, now, verify));
    }
  }

  /** The pass lists every archive exactly where the rules put it. */
  lemma SweepIsRuled(cs: seq<Candidate>, policy: Policy, now: int, verify: Candidate -> Verdict)
    ensures Sweep(cs, policy, policy.Cutoff(now), verify, 0) == Ruled(cs, |cs|, policy, now, verify)
  {
    SweepSoFar(cs, |cs|, policy, now, verify);
    SweepEnds(cs, policy, policy.Cutoff(now), verify, Ruled(cs, |cs|, policy, now, verify), KeptBefore(cs, |cs|, policy, now, verify));
  }

  /**
   `plan`: sort, then one pass that spends slots. The plan is the one the rules ask
   for: its six lists hold exactly the archives the rules put there, in order.
   */
  method MakePlan(candidates: seq<Candidate>, policy: Policy, now: int, verify: Candidate -> Verdict) returns (plan: Plan, read: seq<Candidate>)
    ensures plan == Ruled(Sort(candidates), |Sort(candidates)|, policy, now, verify)
    ensures plan == Sweep(Sort(candidates), policy, policy.Cutoff(now), verify, 0)
    ensures read == ReadBy(Sort(candidates), policy, policy.Cutoff(now), verify, 0)
  {
    var cs := Sort(candidates);
    var cutoff := policy.Cutoff(now);
    plan, read := NOTHING, [];
    var slots := 0;
    var i := 0;
    RuledBegins(cs, policy, now, verify);
    assert cs[0..] == cs;
    while i < |cs|
      invariant 0 <= i <= |cs|
      invariant plan == Ruled(cs, i, policy, now, verify) && slots == KeptBefore(cs, i, policy, now, verify)
      invariant ReadBy(cs, policy, cutoff, verify, 0) == read + ReadBy(cs[i..], policy, cutoff, verify, slots)
    {
      var next, left, was := Place(plan, slots, cs[i], policy, cutoff, verify);
      ReadStep(cs, i, policy, cutoff, verify, slots, read);
      RuledStep(cs, i, policy, now, verify);
      if was {
        read := read + [cs[i]];
      }
      plan, slots, i := next, left, i + 1;
    }
    SweepIsRuled(cs, policy, now, verify);
  }

  // ---------------------------------------------------------------------------
  // The fate of each archive

  lemma {:induction false} SurvivorsStep(cs: seq<Candidate>, k: nat, policy: Policy, cutoff: Option<int>, verify: Candidate -> Verdict, slots: nat)
    requires k < |cs|
    ensures Survivors(cs, k + 1, policy, cutoff, verify, slots)
         == Survivors(cs, k, policy, cutoff, verify, slots) + (if Survives(FateOf(cs, k, policy, cutoff, verify, slots)) then 1 else 0)
  {
    var s := Survives(Judge(cs[0], policy, cutoff, verify, slots));
    var next := if s then slots + 1 else slots;
    if k > 0 {
      SurvivorsStep(cs[1..], k - 1, policy, cutoff, verify, next);
      FateOfTail(cs, k, policy, cutoff, verify, slots);
    } else {
      assert Survivors(cs[1..], 0, policy, cutoff, verify, next) == 0;
    }
  }

  lemma {:induction false} SurvivorsAreKept(cs: seq<Candidate>, i: nat, policy: Policy, now: int, verify: Candidate -> Verdict)
    requires i <= |cs|
    ensures Survivors(cs, i, policy, policy.Cutoff(now), verify, 0) == KeptBefore(cs, i, policy, now, verify)
  {
    if i > 0 {
      SurvivorsAreKept(cs, i - 1, policy, now, verify);
      SurvivorsStep(cs, i - 1, policy, policy.Cutoff(now), verify, 0);
      JudgedByRules(cs[i - 1], policy, now, verify, KeptBefore(cs, i - 1, policy, now, verify));
    }
  }

  /**
   The exact fate of every archive. It survives if and only if fewer newer ones
   survive than the ceiling allows, and it is not expired, or it is not unreadable
   and fewer newer ones survive than the floor asks for.
   */
  lemma SurvivesIff(cs: seq<Candidate>, i: nat, policy: Policy, now: int, verify: Candidate -> Verdict)
    requires i < |cs|
    ensures var newer := Survivors(cs, i, policy, policy.Cutoff(now), verify, 0);
            Survives(FateOf(cs, i, policy, policy.Cutoff(now), verify, 0)) <==>
              && (policy.keepLast.Some? ==> newer < policy.keepLast.value)
              && (!IsExpired(cs[i], policy, now) || (!verify(cs[i]).Invalid? && newer < policy.keepMinimum))
  {
    JudgedByRules(cs[i], policy, now, verify, Survivors(cs, i, policy, policy.Cutoff(now), verify, 0));
  }
}
