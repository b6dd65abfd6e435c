/** Readiness of a passport: which required facts are missing or expired at a given instant. */
module Readiness {
  import opened Results
  import opened Sequences
  import opened Text

  datatype Provenance =
    | SelfReported | DocumentExtracted | ApiVerified | CounterpartyConfirmed
    | OperatorVerified | OutcomeLearned | Inferred

  datatype Section = Identity | RelationshipHistory | ProcessingMetrics | Risk | Commercial | Technical

  /** Instants are milliseconds. */
  datatype Fact = Fact(fieldKey: Text, hasValue: bool, verification: Provenance, expiresAt: Option<int>)

  datatype RequiredFact = RequiredFact(fieldKey: Text, sectionType: Section, blocking: bool)

  datatype Reason = Missing | Expired | NearExpiry | NeverVerified

  datatype Finding = Finding(fieldKey: Text, sectionType: Section, reason: Reason)

  datatype ReadinessResult = ReadinessResult(score: real, blockers: seq<Finding>, warnings: seq<Finding>)

  datatype ReadinessError = DuplicateFieldKey(fieldKey: Text)

  datatype Freshness = Fresh | Aging | Stale | Unknown

  const DAY := 24 * 60 * 60 * 1000
  const WARN_WITHIN_DAYS := 30

  function ClassifyFactFreshness(expiresAt: Option<int>, now: int): Freshness {
    if expiresAt.None? then Unknown
    else if expiresAt.value - now < 0 then Stale
    else if expiresAt.value - now <= WARN_WITHIN_DAYS * DAY then Aging
    else Fresh
  }

  // ----- the specification -----

  function Keys(facts: seq<Fact>): seq<Text> {
    Map(facts, (f: Fact) => f.fieldKey)
  }

  predicate Present(facts: seq<Fact>, key: Text) {
    exists f :: f in facts && f.fieldKey == key && f.hasValue
  }

  /** What a fact that is present gives rise to. */
  predicate Shows(facts: seq<Fact>, now: int, key: Text, reason: Reason) {
    exists f :: f in facts && f.fieldKey == key && f.hasValue && FactShows(f, now, reason)
  }

  predicate FactShows(f: Fact, now: int, reason: Reason) {
    match reason
    case Missing => false
    case Expired => f.expiresAt.Some? && f.expiresAt.value < now
    case NearExpiry => f.expiresAt.Some? && now <= f.expiresAt.value <= now + 30 * 24 * 60 * 60 * 1000
    case NeverVerified => f.verification == SelfReported
  }

  predicate Applies(facts: seq<Fact>, now: int, key: Text, reason: Reason) {
    if reason == Missing then !Present(facts, key) else Shows(facts, now, key, reason)
  }

  /** Whether a requirement is met at all: a value that has not expired. */
  predicate Satisfied(facts: seq<Fact>, now: int, req: RequiredFact) {
    Present(facts, req.fieldKey) && !Shows(facts, now, req.fieldKey, Expired)
  }

  predicate Gates(req: RequiredFact, reason: Reason) {
    req.blocking && (reason == Missing || reason == Expired)
  }

  function Report(facts: seq<Fact>, now: int, req: RequiredFact, reason: Reason, asBlocker: bool): seq<Finding> {
    if Applies(facts, now, req.fieldKey, reason) && (Gates(req, reason) <==> asBlocker)
    then [Finding(req.fieldKey, req.sectionType, reason)] else []
  }

  function Reports(facts: seq<Fact>, now: int, req: RequiredFact, asBlocker: bool): seq<Finding> {
    Report(facts, now, req, Missing, asBlocker)
    + Report(facts, now, req, Expired, asBlocker)
    + Report(facts, now, req, NearExpiry, asBlocker)
    + Report(facts, now, req, NeverVerified, asBlocker)
  }

  function Findings(facts: seq<Fact>, now: int, reqs: seq<RequiredFact>, asBlocker: bool): seq<Finding> {
    if reqs == [] then []
    else Findings(facts, now, reqs[..|reqs| - 1], asBlocker) + Reports(facts, now, reqs[|reqs| - 1], asBlocker)
  }

  function PresentCount(facts: seq<Fact>, reqs: seq<RequiredFact>): nat {
    |Filter(reqs, (req: RequiredFact) => Present(facts, req.fieldKey))|
  }

  function Score(facts: seq<Fact>, reqs: seq<RequiredFact>): real {
    if reqs == [] then 100.0 else PresentCount(facts, reqs) as real / |reqs| as real * 100.0
  }

  function Result(facts: seq<Fact>, now: int, reqs: seq<RequiredFact>): ReadinessResult {
    ReadinessResult(Score(facts, reqs), Findings(facts, now, reqs, true), Findings(facts, now, reqs, false))
  }

  predicate IsReadinessBlocked(r: ReadinessResult) {
    |r.blockers| > 0
  }

  predicate Blocked(facts: seq<Fact>, now: int, reqs: seq<RequiredFact>) {
    IsReadinessBlocked(Result(facts, now, reqs))
  }

  // ----- the method -----

  /** key is at n, and is the first key that occurred before. */
  ghost predicate FirstRepeat(keys: seq<Text>, n: nat, key: Text)
    requires n < |keys|
  {
    keys[n] == key && Distinct(keys[..n]) && key in keys[..n]
  }

  method CheckDuplicates(facts: seq<Fact>) returns (duplicate: Option<Text>)
    ensures duplicate == None <==> Distinct(Keys(facts))
    ensures duplicate.Some? ==> exists n :: 0 <= n < |facts| && FirstRepeat(Keys(facts), n, duplicate.value)
  {
    var seen: set<Text> := {};
    for i := 0 to |facts|
      invariant seen == Elements(Keys(facts)[..i]) && Distinct(Keys(facts)[..i])
    {
      assert Keys(facts)[..i + 1] == Keys(facts)[..i] + [facts[i].fieldKey];
      if facts[i].fieldKey in seen {
        var j :| 0 <= j < i && Keys(facts)[j] == facts[i].fieldKey;
        assert Keys(facts)[..i][j] == facts[i].fieldKey;
        assert FirstRepeat(Keys(facts), i, facts[i].fieldKey);
        return Some(facts[i].fieldKey);
      }
      seen := seen + {facts[i].fieldKey};
    }
    assert Keys(facts)[..|facts|] == Keys(facts);
    return None;
  }

  /** The lookup by key; later facts would overwrite earlier ones. */
  method IndexByKey(facts: seq<Fact>) returns (factByKey: map<Text, Fact>)
    requires Distinct(Keys(facts))
    ensures Indexes(factByKey, facts)
  {
    factByKey := map[];
    for i := 0 to |facts|
      invariant forall j :: 0 <= j < i ==> facts[j].fieldKey in factByKey && factByKey[facts[j].fieldKey] == facts[j]
      invariant forall k :: k in factByKey ==> factByKey[k] in facts && factByKey[k].fieldKey == k
    {
      forall j | 0 <= j < i ensures facts[j].fieldKey != facts[i].fieldKey {
        assert Keys(facts)[j] != Keys(facts)[i];
      }
      factByKey := factByKey[facts[i].fieldKey := facts[i]];
    }
  }

  ghost predicate Indexes(factByKey: map<Text, Fact>, facts: seq<Fact>) {
    && (forall f :: f in facts ==> f.fieldKey in factByKey && factByKey[f.fieldKey] == f)
    && (forall k :: k in factByKey ==> factByKey[k] in facts && factByKey[k].fieldKey == k)
  }

  /** With the one fact of a key at hand, every question about the key is a question about that fact. */
  lemma LookupDecides(facts: seq<Fact>, factByKey: map<Text, Fact>, now: int, key: Text)
    requires Indexes(factByKey, facts)
    ensures Present(facts, key) <==> key in factByKey && factByKey[key].hasValue
    ensures forall reason :: Shows(facts, now, key, reason) <==> Present(facts, key) && FactShows(factByKey[key], now, reason)
  {
    hide FactShows;
    if key in factByKey && factByKey[key].hasValue {
      assert factByKey[key] in facts;
    }
  }

  /** One turn of the loop: the findings of one requirement. */
  method Judge(req: RequiredFact, factByKey: map<Text, Fact>, now: int, ghost facts: seq<Fact>)
    returns (present: bool, blockers: seq<Finding>, warnings: seq<Finding>)
    requires Indexes(factByKey, facts)
    ensures present <==> Present(facts, req.fieldKey)
    ensures blockers == Reports(facts, now, req, true) && warnings == Reports(facts, now, req, false)
  {
    LookupDecides(facts, factByKey, now, req.fieldKey);
    hide Present, Shows, Indexes;
    blockers, warnings := [], [];
    present := req.fieldKey in factByKey && factByKey[req.fieldKey].hasValue;
    if !present {
      var finding := Finding(req.fieldKey, req.sectionType, Missing);
      if req.blocking { blockers := [finding]; } else { warnings := [finding]; }
      return;
    }
    var fact := factByKey[req.fieldKey];
    var freshness := ClassifyFactFreshness(fact.expiresAt, now);
    if freshness == Stale {
      var finding := Finding(req.fieldKey, req.sectionType, Expired);
      if req.blocking { blockers := [finding]; } else { warnings := [finding]; }
    } else if freshness == Aging {
      warnings := [Finding(req.fieldKey, req.sectionType, NearExpiry)];
    }
    if fact.verification == SelfReported {
      warnings := warnings + [Finding(req.fieldKey, req.sectionType, NeverVerified)];
    }
  }

  method ComputeReadiness(facts: seq<Fact>, now: int, requiredFacts: seq<RequiredFact>)
    returns (r: Result<ReadinessResult, ReadinessError>)
    ensures r.Failure? <==> !Distinct(Keys(facts))
    ensures r.Failure? ==> exists n :: 0 <= n < |facts| && FirstRepeat(Keys(facts), n, r.error.fieldKey)
    ensures r.Success? ==> r.value == Result(facts, now, requiredFacts)
  {
    hide Reports, Present, Indexes;
    var duplicate := CheckDuplicates(facts);
    if duplicate.Some? {
      return Failure(DuplicateFieldKey(duplicate.value));
    }
    var factByKey := IndexByKey(facts);
    var blockers: seq<Finding>, warnings: seq<Finding>, presentCount := [], [], 0;
    for i := 0 to |requiredFacts|
      invariant blockers == Findings(facts, now, requiredFacts[..i], true)
      invariant warnings == Findings(facts, now, requiredFacts[..i], false)
      invariant presentCount == PresentCount(facts, requiredFacts[..i])
    {
      assert requiredFacts[..i + 1][..i] == requiredFacts[..i];
      var present, blocks, warns := Judge(requiredFacts[i], factByKey, now, facts);
      blockers, warnings := blockers + blocks, warnings + warns;
      if present {
        presentCount := presentCount + 1;
      }
    }
    assert requiredFacts[..|requiredFacts|] == requiredFacts;
    var score := if |requiredFacts| == 0 then 100.0 else presentCount as real / |requiredFacts| as real * 100.0;
    return Success(ReadinessResult(score, blockers, warnings));
  }

  // ----- what blocks, and how time changes it -----

  ghost predicate Concerns(facts: seq<Fact>, now: int, req: RequiredFact, asBlocker: bool, finding: Finding) {
    && finding == Finding(req.fieldKey, req.sectionType, finding.reason)
    && Applies(facts, now, req.fieldKey, finding.reason)
    && (Gates(req, finding.reason) <==> asBlocker)
  }

  lemma ReportedForOne(facts: seq<Fact>, now: int, req: RequiredFact, asBlocker: bool, finding: Finding)
    ensures finding in Reports(facts, now, req, asBlocker) <==> Concerns(facts, now, req, asBlocker, finding)
  {
    hide Applies, Gates;
    var missing, expired, near, never := Report(facts, now, req, Missing, asBlocker), Report(facts, now, req, Expired, asBlocker),
      Report(facts, now, req, NearExpiry, asBlocker), Report(facts, now, req, NeverVerified, asBlocker);
    assert Reports(facts, now, req, asBlocker) == missing + expired + near + never;
    assert finding in missing + expired + near + never
      <==> finding in missing || finding in expired || finding in near || finding in never;
    hide Reports;
    match finding.reason
    case Missing =>
    case Expired =>
    case NearExpiry =>
    case NeverVerified =>
  }

  /** A finding is reported exactly when some requirement has it, as a blocker exactly when that requirement gates on it. */
  lemma {:induction false} ReportedIffConcerned(facts: seq<Fact>, now: int, reqs: seq<RequiredFact>, asBlocker: bool, finding: Finding)
    ensures finding in Findings(facts, now, reqs, asBlocker)
      <==> exists req :: req in reqs && Concerns(facts, now, req, asBlocker, finding)
  {
    hide Reports, Concerns;
    if reqs != [] {
      var init, last := reqs[..|reqs| - 1], reqs[|reqs| - 1];
      assert reqs == init + [last];
      ReportedIffConcerned(facts, now, init, asBlocker, finding);
      ReportedForOne(facts, now, last, asBlocker, finding);
    }
  }

  /** Exactly the unmet blocking requirements block. */
  lemma {:induction false} BlockedIffUnsatisfied(facts: seq<Fact>, now: int, reqs: seq<RequiredFact>)
    ensures Blocked(facts, now, reqs) <==> exists req :: req in reqs && req.blocking && !Satisfied(facts, now, req)
  {
    hide Present, Shows;
    if reqs != [] {
      var init, last := reqs[..|reqs| - 1], reqs[|reqs| - 1];
      assert reqs == init + [last];
      BlockedIffUnsatisfied(facts, now, init);
    }
  }

  /** A fact keeps a requirement from blocking: it has the key, a value, and no expiry in the past. */
  predicate IsLive(f: Fact, key: Text, now: int) {
    f.fieldKey == key && f.hasValue && (f.expiresAt.Some? ==> now <= f.expiresAt.value)
  }

  /** When no two facts have one key, just the blocking requirements without a live value block. */
  lemma BlockedIffNoLiveFact(facts: seq<Fact>, now: int, reqs: seq<RequiredFact>)
    requires forall i, j :: 0 <= i < j < |facts| ==> facts[i].fieldKey != facts[j].fieldKey
    ensures Blocked(facts, now, reqs)
      <==> exists req :: req in reqs && req.blocking && forall f :: f in facts ==> !IsLive(f, req.fieldKey, now)
  {
    BlockedIffUnsatisfied(facts, now, reqs);
    hide Blocked, Satisfied;
    forall req ensures Satisfied(facts, now, req) <==> exists f :: f in facts && IsLive(f, req.fieldKey, now) {
      SatisfiedMeans(facts, now, req);
    }
  }

  lemma SatisfiedMeans(facts: seq<Fact>, now: int, req: RequiredFact)
    requires forall i, j :: 0 <= i < j < |facts| ==> facts[i].fieldKey != facts[j].fieldKey
    ensures Satisfied(facts, now, req) <==> exists f :: f in facts && IsLive(f, req.fieldKey, now)
  {
    if Satisfied(facts, now, req) {
      var f :| f in facts && f.fieldKey == req.fieldKey && f.hasValue;
      assert !FactShows(f, now, Expired);
      assert IsLive(f, req.fieldKey, now);
    }
    if f :| f in facts && IsLive(f, req.fieldKey, now) {
      var i :| 0 <= i < |facts| && facts[i] == f;
      forall g | g in facts && g.fieldKey == req.fieldKey ensures g == f {
        var j :| 0 <= j < |facts| && facts[j] == g;
      }
    }
  }

  lemma ExpiryIsFinal(facts: seq<Fact>, now: int, later: int, key: Text)
    requires now <= later && Shows(facts, now, key, Expired)
    ensures Shows(facts, later, key, Expired)
  {
    var f :| f in facts && f.fieldKey == key && f.hasValue && FactShows(f, now, Expired);
    assert FactShows(f, later, Expired);
  }

  /** With the facts fixed, time can only add blockers. */
  lemma BlockednessIsMonotone(facts: seq<Fact>, now: int, later: int, reqs: seq<RequiredFact>)
    requires now <= later && Blocked(facts, now, reqs)
    ensures Blocked(facts, later, reqs)
  {
    hide Shows, Present, Findings;
    BlockedIffUnsatisfied(facts, now, reqs);
    BlockedIffUnsatisfied(facts, later, reqs);
    var req :| req in reqs && req.blocking && !Satisfied(facts, now, req);
    if Shows(facts, now, req.fieldKey, Expired) {
      ExpiryIsFinal(facts, now, later, req.fieldKey);
    }
    assert !Satisfied(facts, later, req);
  }

}
