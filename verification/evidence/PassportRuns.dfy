/** The status of one passport over whole runs of recomputes, reads and verifications. */
module PassportRuns {
  import opened Results
  import opened Sequences
  import opened Text
  import opened Readiness

  datatype Status = Draft | Incomplete | Ready | Verified | Stale | Suspended

  function Transitions(from: Status): set<Status> {
    match from
    case Draft => {Incomplete, Ready, Suspended}
    case Incomplete => {Ready, Suspended}
    case Ready => {Incomplete, Verified, Status.Stale, Suspended}
    case Verified => {Incomplete, Ready, Status.Stale, Suspended}
    case Stale => {Incomplete, Ready, Verified, Suspended}
    case Suspended => {Incomplete}
  }

  predicate Legal(from: Status, to: Status) {
    from != to && to in Transitions(from)
  }

  predicate ReadinessStale(status: Status, lastComputedAt: Option<int>, now: int, maxAgeDays: int) {
    && (status == Ready || status == Verified)
    && lastComputedAt.Some?
    && now - lastComputedAt.value > maxAgeDays * DAY
  }

  function TargetStatusAfterRecompute(current: Status, hasFacts: bool, blocked: bool): Status {
    if current == Suspended then current
    else if blocked then (if current == Draft && !hasFacts then Draft else Incomplete)
    else if current == Verified then Verified
    else Ready
  }

  // ----- one passport and what can happen to it -----

  const STALE_AFTER_DAYS := 90

  /** A passport with the instant of its latest readiness result. */
  datatype Passport = Passport(status: Status, computedAt: Option<int>)

  datatype Event =
    | Recompute(facts: seq<Fact>, now: int)
    | Read(now: int) // of one passport's details; the list read shows the stored status and changes nothing
    | Verify(now: int)

  /** Each event is one transaction; one that throws leaves the passport as it was. */
  ghost function Step(reqs: seq<RequiredFact>, p: Passport, e: Event): Passport {
    match e
    case Recompute(facts, now) =>
      if !Distinct(Keys(facts)) then p
      else Passport(TargetStatusAfterRecompute(p.status, facts != [], Blocked(facts, now, reqs)), Some(now))
    case Read(now) =>
      if ReadinessStale(p.status, p.computedAt, now, STALE_AFTER_DAYS) then p.(status := Status.Stale) else p
    case Verify(now) =>
      if p.status == Ready then p.(status := Verified) else p
  }

  ghost function Run(reqs: seq<RequiredFact>, p: Passport, events: seq<Event>): Passport {
    if events == [] then p
    else Step(reqs, Run(reqs, p, events[..|events| - 1]), events[|events| - 1])
  }

  // ----- every step is a legal edge -----

  /** Whatever the status and the event, the status stays or takes an edge of the table. */
  lemma StepsAreLegal(reqs: seq<RequiredFact>, p: Passport, e: Event)
    ensures Step(reqs, p, e).status == p.status || Legal(p.status, Step(reqs, p, e).status)
  {
    hide Blocked, Distinct, Keys;
  }

  /** A recompute makes a passport usable exactly when nothing blocks it and no hold is on it. */
  lemma RecomputeDecides(current: Status, hasFacts: bool, blocked: bool)
    ensures var to := TargetStatusAfterRecompute(current, hasFacts, blocked);
      && (Usable(to) <==> !blocked && current != Suspended)
      && (to == Verified <==> current == Verified && !blocked)
      && (to == Draft <==> current == Draft && !hasFacts && blocked)
      && (to == Suspended <==> current == Suspended)
      && to != Status.Stale
  {}

  /** The edges of the table, by where they lead. */
  lemma EdgesByTarget(from: Status, to: Status)
    ensures Legal(from, to) <==>
      match to
      case Draft => false
      case Incomplete => from != Incomplete
      case Ready => from != Ready && from != Suspended
      case Verified => from == Ready || from == Status.Stale
      case Stale => from == Ready || from == Verified
      case Suspended => from != Suspended
  {}

  predicate Usable(status: Status) {
    status == Ready || status == Verified
  }

  // ----- what a reader may rely on -----

  /** At index i the passport was found unblocked, and no later event recomputed it. */
  ghost predicate LastFoundReady(reqs: seq<RequiredFact>, events: seq<Event>, i: nat)
    requires i < |events|
  {
    && events[i].Recompute? && Distinct(Keys(events[i].facts)) && !Blocked(events[i].facts, events[i].now, reqs)
    && forall j :: i < j < |events| ==> !(events[j].Recompute? && Distinct(Keys(events[j].facts)))
  }

  /** From a fresh passport: who is past INCOMPLETE got there by the latest recompute, which found nothing blocking. */
  ghost predicate Grounded(reqs: seq<RequiredFact>, events: seq<Event>, p: Passport) {
    Usable(p.status) || p.status == Status.Stale ==>
      exists i :: 0 <= i < |events| && LastFoundReady(reqs, events, i) && p.computedAt == Some(events[i].now)
  }

  lemma {:induction false} RunsAreGrounded(reqs: seq<RequiredFact>, events: seq<Event>)
    ensures Grounded(reqs, events, Run(reqs, Passport(Draft, None), events))
  {
    if events != [] {
      var init, e := events[..|events| - 1], events[|events| - 1];
      var p := Run(reqs, Passport(Draft, None), init);
      RunsAreGrounded(reqs, init);
      StepKeepsGrounded(reqs, init, e, p);
      assert events == init + [e];
    }
  }

  lemma StepKeepsGrounded(reqs: seq<RequiredFact>, events: seq<Event>, e: Event, p: Passport)
    requires Grounded(reqs, events, p)
    ensures Grounded(reqs, events + [e], Step(reqs, p, e))
  {
    hide Blocked, Distinct, Keys;
    var q := Step(reqs, p, e);
    if Usable(q.status) || q.status == Status.Stale {
      if e.Recompute? && Distinct(Keys(e.facts)) {
        assert LastFoundReady(reqs, events + [e], |events|);
      } else {
        var i :| 0 <= i < |events| && LastFoundReady(reqs, events, i) && p.computedAt == Some(events[i].now);
        assert LastFoundReady(reqs, events + [e], i);
      }
    }
  }

  /**
   A passport whose details are read as READY or VERIFIED was found free of
   blockers by its latest recompute, at most 90 days before the read.
   */
  lemma ReadsAreTrustworthy(reqs: seq<RequiredFact>, events: seq<Event>, now: int)
    requires Usable(Run(reqs, Passport(Draft, None), events + [Read(now)]).status)
    ensures exists i :: 0 <= i < |events| && LastFoundReady(reqs, events, i) && now - events[i].now <= 90 * 24 * 60 * 60 * 1000
  {
    RunsAreGrounded(reqs, events);
    assert (events + [Read(now)])[..|events|] == events;
  }

  /** Event j verified the passport while it was READY, and it has been VERIFIED ever since. */
  ghost predicate VerifiedBy(reqs: seq<RequiredFact>, events: seq<Event>, j: nat)
    requires j < |events|
  {
    && events[j].Verify? && StatusAfter(reqs, events, j) == Ready
    && forall k :: j < k <= |events| ==> StatusAfter(reqs, events, k) == Verified
  }

  ghost function StatusAfter(reqs: seq<RequiredFact>, events: seq<Event>, k: nat): Status
    requires k <= |events|
  {
    Run(reqs, Passport(Draft, None), events[..k]).status
  }

  /** A run shows VERIFIED only if someone verified the passport while it was READY, and nothing has changed its status since. */
  lemma {:induction false} VerifiedWasReady(reqs: seq<RequiredFact>, events: seq<Event>)
    requires StatusAfter(reqs, events, |events|) == Verified
    ensures exists j :: 0 <= j < |events| && VerifiedBy(reqs, events, j)
  {
    assert events[..|events|] == events;
    var n := |events| - 1;
    var init := events[..n];
    assert init[..n] == init;
    StepToVerified(reqs, Run(reqs, Passport(Draft, None), init), events[n]);
    hide Run, Step;
    if StatusAfter(reqs, init, n) == Verified {
      VerifiedWasReady(reqs, init);
      var j :| 0 <= j < |init| && VerifiedBy(reqs, init, j);
      StillVerifiedBy(reqs, events, j);
    } else {
      assert VerifiedBy(reqs, events, n);
    }
  }

  lemma StillVerifiedBy(reqs: seq<RequiredFact>, events: seq<Event>, j: nat)
    requires j + 1 < |events| && VerifiedBy(reqs, events[..|events| - 1], j)
    requires StatusAfter(reqs, events, |events|) == Verified
    ensures VerifiedBy(reqs, events, j)
  {
    hide Run;
    var init := events[..|events| - 1];
    forall k | 0 <= k <= |init| ensures StatusAfter(reqs, init, k) == StatusAfter(reqs, events, k) {
      assert init[..k] == events[..k];
    }
  }

  lemma StepToVerified(reqs: seq<RequiredFact>, p: Passport, e: Event)
    requires Step(reqs, p, e).status == Verified
    ensures p.status == Verified || (e.Verify? && p.status == Ready)
  {
    hide Blocked, Distinct, Keys;
  }

  /** Only a detail read makes a passport STALE: a usable one whose latest readiness result is over 90 days old. */
  lemma StepToStale(reqs: seq<RequiredFact>, p: Passport, e: Event)
    ensures Step(reqs, p, e).status == Status.Stale && p.status != Status.Stale
      <==> && e.Read? && (p.status == Ready || p.status == Verified)
           && p.computedAt.Some? && e.now - p.computedAt.value > 90 * 24 * 60 * 60 * 1000
  {
    hide Blocked, Distinct, Keys;
  }

  /** Reads and verifications change nothing else, and leave the latest readiness result alone. */
  lemma OnlyTheStatusChanges(reqs: seq<RequiredFact>, p: Passport, e: Event)
    requires !e.Recompute?
    ensures Step(reqs, p, e).computedAt == p.computedAt
    ensures Step(reqs, p, e).status == p.status
      || (e.Verify? && p.status == Ready && Step(reqs, p, e).status == Verified)
      || (e.Read? && Step(reqs, p, e).status == Status.Stale)
  {}

  /** A recompute leaves a passport DRAFT exactly when it has no facts yet and some fact is required. */
  lemma DraftWithoutFacts(reqs: seq<RequiredFact>, p: Passport, facts: seq<Fact>, now: int)
    requires Distinct(Keys(facts))
    ensures Step(reqs, p, Recompute(facts, now)).status == Draft
      <==> p.status == Draft && facts == [] && exists req :: req in reqs && req.blocking
  {
    hide Distinct, Keys, Blocked;
    BlockedIffUnsatisfied(facts, now, reqs);
  }

  // ----- what a reader may not rely on -----

  /** A blocking requirement was met until after the first instant and has expired by the second. */
  ghost predicate ExpiredBetween(facts: seq<Fact>, reqs: seq<RequiredFact>, found: int, now: int) {
    exists req, f :: req in reqs && req.blocking && f in facts && RanOut(f, req.fieldKey, found, now)
  }

  predicate RanOut(f: Fact, key: Text, found: int, now: int) {
    f.fieldKey == key && f.hasValue && f.expiresAt.Some? && found <= f.expiresAt.value < now
  }

  lemma ExpiryBlocks(facts: seq<Fact>, reqs: seq<RequiredFact>, found: int, now: int)
    requires ExpiredBetween(facts, reqs, found, now)
    ensures Blocked(facts, now, reqs)
  {
    hide Blocked, Present;
    var req, f :| req in reqs && req.blocking && f in facts && RanOut(f, req.fieldKey, found, now);
    assert FactShows(f, now, Expired);
    assert !Satisfied(facts, now, req);
    BlockedIffUnsatisfied(facts, now, reqs);
  }

  lemma UnblockedUntilExpiry(facts: seq<Fact>, reqs: seq<RequiredFact>, found: int, now: int)
    requires found <= now && !Blocked(facts, found, reqs)
    ensures Blocked(facts, now, reqs) <==> ExpiredBetween(facts, reqs, found, now)
  {
    hide Blocked, Present;
    BlockedIffUnsatisfied(facts, found, reqs);
    BlockedIffUnsatisfied(facts, now, reqs);
    if Blocked(facts, now, reqs) {
      var req :| req in reqs && req.blocking && !Satisfied(facts, now, req);
      assert Satisfied(facts, found, req);
      var f :| f in facts && f.fieldKey == req.fieldKey && f.hasValue && FactShows(f, now, Expired);
      assert !FactShows(f, found, Expired);
      assert RanOut(f, req.fieldKey, found, now);
    }
    if ExpiredBetween(facts, reqs, found, now) {
      ExpiryBlocks(facts, reqs, found, now);
    }
  }

  lemma {:induction false} LatestComputation(reqs: seq<RequiredFact>, p: Passport, events: seq<Event>, i: nat)
    requires i < |events| && LastFoundReady(reqs, events, i)
    ensures Run(reqs, p, events).computedAt == Some(events[i].now)
  {
    hide Blocked, Distinct, Keys;
    if i < |events| - 1 {
      LatestComputation(reqs, p, events[..|events| - 1], i);
    }
  }

  /**
   Between recomputes a passport can be shown as usable although its facts block it. That is so exactly when its
   status is still usable, its latest recompute is at most 90 days old, and the evidence of a blocking fact has
   expired since.
   */
  lemma ShownUsableThoughBlocked(reqs: seq<RequiredFact>, p: Passport, events: seq<Event>, i: nat, now: int)
    requires i < |events| && LastFoundReady(reqs, events, i) && events[i].now <= now
    ensures Usable(Run(reqs, p, events + [Read(now)]).status) && Blocked(events[i].facts, now, reqs)
      <==> && Usable(Run(reqs, p, events).status)
           && now - events[i].now <= 90 * 24 * 60 * 60 * 1000
           && ExpiredBetween(events[i].facts, reqs, events[i].now, now)
  {
    LatestComputation(reqs, p, events, i);
    UnblockedUntilExpiry(events[i].facts, reqs, events[i].now, now);
    assert (events + [Read(now)])[..|events|] == events;
    hide Blocked, ExpiredBetween, Distinct, Keys, LastFoundReady;
  }

  /** It does happen: one day after its only required fact has expired, a passport is still shown as READY. */
  lemma ReadyAfterExpiry(key: Text, section: Section)
    ensures var facts := [Fact(key, true, ApiVerified, Some(DAY))];
      var reqs := [RequiredFact(key, section, true)];
      && Run(reqs, Passport(Draft, None), [Recompute(facts, 0), Read(2 * DAY)]).status == Ready
      && Blocked(facts, 2 * DAY, reqs)
  {
    var f, req := Fact(key, true, ApiVerified, Some(DAY)), RequiredFact(key, section, true);
    var facts, reqs, events := [f], [req], [Recompute([f], 0)];
    assert f in facts && FactShows(f, 2 * DAY, Expired) && !FactShows(f, 0, Expired);
    assert req in reqs && Satisfied(facts, 0, req) && !Satisfied(facts, 2 * DAY, req);
    BlockedIffUnsatisfied(facts, 0, reqs);
    BlockedIffUnsatisfied(facts, 2 * DAY, reqs);
    hide Blocked, Satisfied;
    assert Distinct(Keys(facts));
    hide Distinct, Keys;
    assert events[..0] == [] && Run(reqs, Passport(Draft, None), events) == Passport(Ready, Some(0));
    assert [Recompute(facts, 0), Read(2 * DAY)][..1] == events;
  }

  // ----- with the facts fixed -----

  /** Every recompute of the run sees the same facts, and time does not go back. */
  ghost predicate FixedFacts(events: seq<Event>, facts: seq<Fact>) {
    && (forall i :: 0 <= i < |events| && events[i].Recompute? ==> events[i].facts == facts)
    && (forall i, j :: 0 <= i < j < |events| ==> events[i].now <= events[j].now)
  }

  /** Once a recompute has found the facts blocking, the passport is never READY, VERIFIED or STALE again. */
  lemma {:induction false} OnceBlockedNeverUsable(reqs: seq<RequiredFact>, p: Passport, events: seq<Event>, facts: seq<Fact>, i: nat)
    requires FixedFacts(events, facts) && Distinct(Keys(facts))
    requires i < |events| && events[i].Recompute? && Blocked(facts, events[i].now, reqs)
    ensures Run(reqs, p, events).status in {Draft, Incomplete, Suspended}
  {
    hide Blocked, Distinct, Keys;
    var init, e := events[..|events| - 1], events[|events| - 1];
    if i < |events| - 1 {
      OnceBlockedNeverUsable(reqs, p, init, facts, i);
      BlockednessIsMonotone(facts, events[i].now, e.now, reqs);
    }
  }

  /** While the facts still satisfy every blocking requirement, recomputing brings any unsuspended passport to READY or VERIFIED. */
  lemma SatisfiedMeansUsable(reqs: seq<RequiredFact>, p: Passport, facts: seq<Fact>, now: int)
    requires Distinct(Keys(facts)) && p.status != Suspended
    ensures Usable(Step(reqs, p, Recompute(facts, now)).status)
      <==> forall req :: req in reqs && req.blocking ==> Satisfied(facts, now, req)
  {
    hide Blocked, Satisfied;
    BlockedIffUnsatisfied(facts, now, reqs);
    RecomputeDecides(p.status, facts != [], Blocked(facts, now, reqs));
  }
}
