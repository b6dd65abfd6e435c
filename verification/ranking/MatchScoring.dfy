/**
 Scoring one capacity profile against one opportunity, in exact arithmetic: nine
 factors on a scale from 0 to 100, each weighed and rounded to one decimal, and
 their rounded sum. Here is how a score moves with what it is computed from, and
 how high and how low it can be; MatchFactors states what each factor comes to.
 */
module MatchScoring {
  import opened Results
  import opened Sequences
  import opened Text

  datatype Freshness = Fresh | Aging | Stale | Unknown

  datatype Opportunity = Opportunity(currency: Text, jurisdictions: seq<Text>, mccs: seq<Text>, movable30dMinor: int)

  datatype CommercialTerms = CommercialTerms(mdrBps: real)

  datatype Capacity = Capacity(
    id: Text,
    currency: Text,
    jurisdictions: seq<Text>,
    mccsAccepted: seq<Text>,
    monthlyCapacityMinor: int,
    maxChargebackBps: real,
    maxFraudBps: real,
    maxRefundBps: real,
    settlementCadenceDays: real,
    freshnessClass: Freshness,
    commercialTerms: Option<CommercialTerms>)

  datatype RiskProfile = RiskProfile(chargebackBps: Option<real>, fraudBps: Option<real>, refundBps: Option<real>)

  datatype Contribution = Contribution(score: real, weight: real, contribution: real)

  datatype Breakdown = Breakdown(factors: seq<Contribution>, total: real)

  // ----- configuration -----

  const WEIGHTS: seq<real> := [0.22, 0.17, 0.13, 0.13, 0.10, 0.10, 0.07, 0.05, 0.03]
  const OUTCOME_PLACEHOLDER := 50.0
  const TECHNICAL_NEUTRAL := 70.0
  const RISK_NEUTRAL := 50.0
  const NEUTRAL := 50.0
  const PENALTY_PER_EXTRA := 2.0
  const PENALTY_CAP := 20.0
  const HEADROOM_MIN := 1.0
  const HEADROOM_MAX := 5.0
  const CADENCE_MIN := 1.0
  const CADENCE_MAX := 10.0
  const FEE_MIN := 80.0
  const FEE_MAX := 450.0

  // ----- arithmetic -----

  function Clamp(n: real): real {
    if n < 0.0 then 0.0 else if n > 100.0 then 100.0 else n
  }

  function Normalize(value: real, min: real, max: real): real
    requires min < max
  {
    Clamp((value - min) / (max - min) * 100.0)
  }

  function NormalizeInvert(value: real, min: real, max: real): real
    requires min < max
  {
    Clamp((1.0 - (value - min) / (max - min)) * 100.0)
  }

  /** One decimal, halves up. */
  function Round1(n: real): real {
    (n * 10.0 + 0.5).Floor as real / 10.0
  }

  function RealSum(xs: seq<real>): real {
    if xs == [] then 0.0 else RealSum(xs[..|xs| - 1]) + xs[|xs| - 1]
  }

  function Overlap(a: seq<Text>, b: seq<Text>): nat {
    |Filter(a, x => x in b)|
  }

  // ----- the nine factors -----

  function SpecificityPenalty(accepted: nat, matched: nat): real {
    var extras := if accepted > matched then accepted - matched else 0;
    if extras as real * PENALTY_PER_EXTRA < PENALTY_CAP then extras as real * PENALTY_PER_EXTRA else PENALTY_CAP
  }

  function MccProductFit(o: Opportunity, c: Capacity): real {
    if o.mccs == [] then 0.0
    else
      var matched := Overlap(o.mccs, c.mccsAccepted);
      var coverage := matched as real / |o.mccs| as real;
      Round1(Clamp(coverage * 100.0 - SpecificityPenalty(|c.mccsAccepted|, matched)))
  }

  function GeographyLicensingFit(o: Opportunity, c: Capacity): real {
    if o.jurisdictions == [] then 0.0
    else Round1(Overlap(o.jurisdictions, c.jurisdictions) as real / |o.jurisdictions| as real * 100.0)
  }

  function VolumeTicketFit(o: Opportunity, c: Capacity): real {
    if o.currency != c.currency || o.movable30dMinor == 0 then NEUTRAL
    else Round1(Normalize(c.monthlyCapacityMinor as real / o.movable30dMinor as real, HEADROOM_MIN, HEADROOM_MAX))
  }

  function Utilization(rate: Option<real>, ceiling: real): seq<real> {
    if rate.Some? && ceiling > 0.0 then [rate.value / ceiling] else []
  }

  function Utilizations(c: Capacity, risk: RiskProfile): seq<real> {
    Utilization(risk.chargebackBps, c.maxChargebackBps)
    + Utilization(risk.fraudBps, c.maxFraudBps)
    + Utilization(risk.refundBps, c.maxRefundBps)
  }

  function RiskHistoryFit(c: Capacity, risk: RiskProfile): real {
    var utilizations := Utilizations(c, risk);
    if utilizations == [] then RISK_NEUTRAL
    else Round1(Clamp((1.0 - RealSum(utilizations) / |utilizations| as real) * 100.0))
  }

  function SettlementCurrencyFit(o: Opportunity, c: Capacity): real {
    if o.currency != c.currency then 0.0
    else Round1(NormalizeInvert(c.settlementCadenceDays, CADENCE_MIN, CADENCE_MAX))
  }

  function CommercialUtility(c: Capacity): real {
    if c.commercialTerms.None? then NEUTRAL
    else Round1(NormalizeInvert(c.commercialTerms.value.mdrBps, FEE_MIN, FEE_MAX))
  }

  function FreshnessScore(f: Freshness): real {
    match f
    case Fresh => 100.0
    case Aging => 60.0
    case Stale => 20.0
    case Unknown => 0.0
  }

  function Scores(o: Opportunity, c: Capacity, risk: RiskProfile): (scores: seq<real>)
    ensures |scores| == |WEIGHTS|
  {
    [ MccProductFit(o, c),
      GeographyLicensingFit(o, c),
      VolumeTicketFit(o, c),
      RiskHistoryFit(c, risk),
      SettlementCurrencyFit(o, c),
      CommercialUtility(c),
      TECHNICAL_NEUTRAL,
      FreshnessScore(c.freshnessClass),
      OUTCOME_PLACEHOLDER ]
  }

  function Weigh(scores: seq<real>): (contributions: seq<real>)
    requires |scores| == |WEIGHTS|
    ensures |contributions| == |scores|
  {
    seq(|scores|, i requires 0 <= i < |scores| => Round1(scores[i] * WEIGHTS[i]))
  }

  function ScoreMatch(o: Opportunity, c: Capacity, risk: RiskProfile): Breakdown {
    var scores := Scores(o, c, risk);
    var weighed := Weigh(scores);
    Breakdown(
      seq(|scores|, i requires 0 <= i < |scores| => Contribution(scores[i], WEIGHTS[i], weighed[i])),
      Round1(RealSum(weighed)))
  }

  // ----- monotonicity -----

  lemma FloorMonotone(a: real, b: real)
    requires a <= b
    ensures a.Floor <= b.Floor
  {}

  lemma Round1Monotone(a: real, b: real)
    requires a <= b
    ensures Round1(a) <= Round1(b)
  {
    FloorMonotone(a * 10.0 + 0.5, b * 10.0 + 0.5);
  }

  lemma Round1Keeps(n: int)
    ensures Round1(n as real / 10.0) == n as real / 10.0
  {
    assert ((n as real / 10.0) * 10.0 + 0.5).Floor == n;
  }

  lemma QuotientMonotone(a: real, b: real, d: real)
    requires a <= b && d > 0.0
    ensures a / d <= b / d
  {
    assert b / d - a / d == (b - a) / d;
  }

  lemma NormalizeMonotone(a: real, b: real, min: real, max: real)
    requires a <= b && min < max
    ensures Normalize(a, min, max) <= Normalize(b, min, max)
    ensures NormalizeInvert(b, min, max) <= NormalizeInvert(a, min, max)
  {
    QuotientMonotone(a - min, b - min, max - min);
  }

  lemma {:induction false} SumMonotone(xs: seq<real>, ys: seq<real>)
    requires |xs| == |ys| && forall i :: 0 <= i < |xs| ==> xs[i] <= ys[i]
    ensures RealSum(xs) <= RealSum(ys)
  {
    if xs != [] {
      SumMonotone(xs[..|xs| - 1], ys[..|ys| - 1]);
    }
  }

  /** From worst to best: unknown, stale, aging, fresh. */
  predicate FreshnessNoWorse(a: Freshness, b: Freshness) {
    a == b || a.Unknown? || b.Fresh? || (a.Stale? && b.Aging?)
  }

  // Money amounts are non-negative digit strings at the boundary (packages/contracts/src/opportunity.ts:34), which the
  // lemmas below use for the demand that capacity is divided by.

  /** b is a with more capacity, a lower fee, a shorter cadence or a better freshness class, all else equal. */
  ghost predicate Improves(a: Capacity, b: Capacity) {
    && b == a.(monthlyCapacityMinor := b.monthlyCapacityMinor,
               settlementCadenceDays := b.settlementCadenceDays,
               freshnessClass := b.freshnessClass,
               commercialTerms := b.commercialTerms)
    && a.monthlyCapacityMinor <= b.monthlyCapacityMinor
    && b.settlementCadenceDays <= a.settlementCadenceDays
    && FreshnessNoWorse(a.freshnessClass, b.freshnessClass)
    && (a.commercialTerms.None? <==> b.commercialTerms.None?)
    && (a.commercialTerms.Some? ==> b.commercialTerms.value.mdrBps <= a.commercialTerms.value.mdrBps)
  }

  lemma VolumeFitImproves(o: Opportunity, a: Capacity, b: Capacity)
    requires Improves(a, b) && o.movable30dMinor >= 0
    ensures VolumeTicketFit(o, a) <= VolumeTicketFit(o, b)
  {
    hide Round1, Normalize;
    if o.currency == a.currency && o.movable30dMinor != 0 {
      var demand := o.movable30dMinor as real;
      var x, y := a.monthlyCapacityMinor as real / demand, b.monthlyCapacityMinor as real / demand;
      QuotientMonotone(a.monthlyCapacityMinor as real, b.monthlyCapacityMinor as real, demand);
      NormalizeMonotone(x, y, HEADROOM_MIN, HEADROOM_MAX);
      Round1Monotone(Normalize(x, HEADROOM_MIN, HEADROOM_MAX), Normalize(y, HEADROOM_MIN, HEADROOM_MAX));
    }
  }

  lemma ScoresImprove(o: Opportunity, a: Capacity, b: Capacity, risk: RiskProfile, i: nat)
    requires Improves(a, b) && o.movable30dMinor >= 0 && i < |WEIGHTS|
    ensures Scores(o, a, risk)[i] <= Scores(o, b, risk)[i]
  {
    VolumeFitImproves(o, a, b);
    hide VolumeTicketFit, MccProductFit, GeographyLicensingFit, RiskHistoryFit, Round1, NormalizeInvert;
    NormalizeMonotone(b.settlementCadenceDays, a.settlementCadenceDays, CADENCE_MIN, CADENCE_MAX);
    Round1Monotone(NormalizeInvert(a.settlementCadenceDays, CADENCE_MIN, CADENCE_MAX), NormalizeInvert(b.settlementCadenceDays, CADENCE_MIN, CADENCE_MAX));
    if a.commercialTerms.Some? {
      var x, y := a.commercialTerms.value.mdrBps, b.commercialTerms.value.mdrBps;
      NormalizeMonotone(y, x, FEE_MIN, FEE_MAX);
      Round1Monotone(NormalizeInvert(x, FEE_MIN, FEE_MAX), NormalizeInvert(y, FEE_MIN, FEE_MAX));
    }
    SameElsewhere(o, a, b, risk);
  }

  lemma SameElsewhere(o: Opportunity, a: Capacity, b: Capacity, risk: RiskProfile)
    requires Improves(a, b)
    ensures MccProductFit(o, a) == MccProductFit(o, b)
    ensures GeographyLicensingFit(o, a) == GeographyLicensingFit(o, b)
    ensures RiskHistoryFit(a, risk) == RiskHistoryFit(b, risk)
  {
    hide Round1, Clamp, Overlap;
  }

  /** An improvement never lowers any contribution, nor the rounded total. */
  lemma ImprovementNeverLowersTotal(o: Opportunity, a: Capacity, b: Capacity, risk: RiskProfile)
    requires Improves(a, b) && o.movable30dMinor >= 0
    ensures ScoreMatch(o, a, risk).total <= ScoreMatch(o, b, risk).total
    ensures forall i :: 0 <= i < |WEIGHTS| ==>
      ScoreMatch(o, a, risk).factors[i].contribution <= ScoreMatch(o, b, risk).factors[i].contribution
  {
    hide Scores, Round1;
    var x, y := Scores(o, a, risk), Scores(o, b, risk);
    forall i | 0 <= i < |WEIGHTS| ensures Weigh(x)[i] <= Weigh(y)[i] {
      ScoresImprove(o, a, b, risk, i);
      WeightedMonotone(x, y, i);
    }
    SumMonotone(Weigh(x), Weigh(y));
    Round1Monotone(RealSum(Weigh(x)), RealSum(Weigh(y)));
  }

  lemma WeightIsPositive(i: nat)
    requires i < |WEIGHTS|
    ensures WEIGHTS[i] > 0.0
  {}

  lemma WeightedMonotone(x: seq<real>, y: seq<real>, i: nat)
    requires |x| == |y| == |WEIGHTS| && i < |WEIGHTS| && x[i] <= y[i]
    ensures Weigh(x)[i] <= Weigh(y)[i]
  {
    hide Round1;
    WeightIsPositive(i);
    Scale(x[i], y[i], WEIGHTS[i]);
    forall a, b | a <= b ensures Round1(a) <= Round1(b) {
      Round1Monotone(a, b);
    }
  }

  lemma Scale(x: real, y: real, w: real)
    requires x <= y && w > 0.0
    ensures x * w <= y * w
  {}

  // ----- specificity and risk -----

  lemma {:induction false} OtherMccsDoNotMatter(mccs: seq<Text>, accepted: seq<Text>, extra: Text)
    requires extra !in mccs
    ensures Overlap(mccs, accepted + [extra]) == Overlap(mccs, accepted)
  {
    if mccs != [] {
      var init, last := mccs[..|mccs| - 1], mccs[|mccs| - 1];
      assert mccs == init + [last];
      OtherMccsDoNotMatter(init, accepted, extra);
      FilterAppend(init, last, x => x in accepted);
      FilterAppend(init, last, x => x in accepted + [extra]);
    }
  }

  /** A provider who also accepts an MCC this opportunity does not ask for is never scored higher for it. */
  lemma ExtraMccNeverHelps(o: Opportunity, c: Capacity, extra: Text)
    requires extra !in o.mccs
    ensures MccProductFit(o, c.(mccsAccepted := c.mccsAccepted + [extra])) <= MccProductFit(o, c)
  {
    hide Round1, Overlap;
    if o.mccs != [] {
      OtherMccsDoNotMatter(o.mccs, c.mccsAccepted, extra);
      var matched := Overlap(o.mccs, c.mccsAccepted);
      var coverage := matched as real / |o.mccs| as real * 100.0;
      var p, q := SpecificityPenalty(|c.mccsAccepted|, matched), SpecificityPenalty(|c.mccsAccepted| + 1, matched);
      Round1Monotone(Clamp(coverage - q), Clamp(coverage - p));
    }
  }

  /** The rates of b do not exceed those of a, and the same ones are known. */
  ghost predicate NoRiskier(a: Option<real>, b: Option<real>) {
    (a.None? <==> b.None?) && (a.Some? ==> b.value <= a.value)
  }

  lemma UtilizationMonotone(a: Option<real>, b: Option<real>, ceiling: real)
    requires NoRiskier(a, b)
    ensures |Utilization(a, ceiling)| == |Utilization(b, ceiling)|
    ensures forall i :: 0 <= i < |Utilization(a, ceiling)| ==> Utilization(b, ceiling)[i] <= Utilization(a, ceiling)[i]
  {
    if a.Some? && ceiling > 0.0 {
      QuotientMonotone(b.value, a.value, ceiling);
    }
  }

  /** Lower rates against the same ceilings never lower the risk score. */
  lemma LowerRatesNeverHurt(c: Capacity, a: RiskProfile, b: RiskProfile)
    requires NoRiskier(a.chargebackBps, b.chargebackBps) && NoRiskier(a.fraudBps, b.fraudBps) && NoRiskier(a.refundBps, b.refundBps)
    ensures RiskHistoryFit(c, a) <= RiskHistoryFit(c, b)
  {
    UtilizationMonotone(a.chargebackBps, b.chargebackBps, c.maxChargebackBps);
    UtilizationMonotone(a.fraudBps, b.fraudBps, c.maxFraudBps);
    UtilizationMonotone(a.refundBps, b.refundBps, c.maxRefundBps);
    hide Utilization, Round1, RealSum, NoRiskier;
    var xs, ys := Utilizations(c, a), Utilizations(c, b);
    SumMonotone(ys, xs);
    if xs != [] {
      QuotientMonotone(RealSum(ys), RealSum(xs), |xs| as real);
      Round1Monotone(Clamp((1.0 - RealSum(xs) / |xs| as real) * 100.0), Clamp((1.0 - RealSum(ys) / |ys| as real) * 100.0));
    }
  }

  // ----- range -----

  lemma Round1InRange(n: real)
    requires 0.0 <= n <= 100.0
    ensures 0.0 <= Round1(n) <= 100.0
  {
    Round1Monotone(0.0, n);
    Round1Monotone(n, 100.0);
    Round1Keeps(0);
    Round1Keeps(1000);
  }

  lemma CoverageInRange(a: seq<Text>, b: seq<Text>)
    requires a != []
    ensures 0.0 <= Overlap(a, b) as real / |a| as real * 100.0 <= 100.0
  {
    FilterIsNoLonger(a, x => x in b);
    QuotientMonotone(Overlap(a, b) as real, |a| as real, |a| as real);
  }

  lemma ScoresInRange(o: Opportunity, c: Capacity, risk: RiskProfile, i: nat)
    requires i < |WEIGHTS|
    ensures 0.0 <= Scores(o, c, risk)[i] <= 100.0
  {
    hide Round1, Overlap;
    if o.jurisdictions != [] {
      CoverageInRange(o.jurisdictions, c.jurisdictions);
    }
    forall n | 0.0 <= n <= 100.0 ensures 0.0 <= Round1(n) <= 100.0 {
      Round1InRange(n);
    }
  }

  const LOWEST: seq<real> := [0.0, 0.0, 0.0, 0.0, 0.0, 0.0, TECHNICAL_NEUTRAL, 0.0, OUTCOME_PLACEHOLDER]
  const HIGHEST: seq<real> := [100.0, 100.0, 100.0, 100.0, 100.0, 100.0, TECHNICAL_NEUTRAL, 100.0, OUTCOME_PLACEHOLDER]

  lemma ExtremesWeighed()
    ensures Weigh(LOWEST) == [0.0, 0.0, 0.0, 0.0, 0.0, 0.0, 4.9, 0.0, 1.5]
    ensures Weigh(HIGHEST) == [22.0, 17.0, 13.0, 13.0, 10.0, 10.0, 4.9, 5.0, 1.5]
  {
    hide Round1;
    var tenths := [0, 0, 0, 0, 0, 0, 49, 0, 15];
    forall i | 0 <= i < 9 ensures Weigh(LOWEST)[i] == tenths[i] as real / 10.0 {
      Round1Keeps(tenths[i]);
    }
    var top := [220, 170, 130, 130, 100, 100, 49, 50, 15];
    forall i | 0 <= i < 9 ensures Weigh(HIGHEST)[i] == top[i] as real / 10.0 {
      Round1Keeps(top[i]);
    }
  }

  lemma RealSumAppend(xs: seq<real>, x: real)
    ensures RealSum(xs + [x]) == RealSum(xs) + x
  {
    assert (xs + [x])[..|xs|] == xs;
  }

  lemma SumOfThree(xs: seq<real>, a: real, b: real, c: real)
    ensures RealSum(xs + [a, b, c]) == RealSum(xs) + a + b + c
  {
    RealSumAppend(xs, a);
    RealSumAppend(xs + [a], b);
    RealSumAppend(xs + [a] + [b], c);
    assert xs + [a, b, c] == xs + [a] + [b] + [c];
  }

  lemma SumOfNine(a: real, b: real, c: real, d: real, e: real, f: real, g: real, h: real, i: real)
    ensures RealSum([a, b, c, d, e, f, g, h, i]) == a + b + c + d + e + f + g + h + i
  {
    SumOfThree([], a, b, c);
    SumOfThree([a, b, c], d, e, f);
    SumOfThree([a, b, c, d, e, f], g, h, i);
    assert [] + [a, b, c] == [a, b, c];
    assert [a, b, c] + [d, e, f] == [a, b, c, d, e, f];
    assert [a, b, c, d, e, f] + [g, h, i] == [a, b, c, d, e, f, g, h, i];
  }

  /** Two factors are fixed, which keeps every total inside the nominal 0 to 100. */
  lemma TotalInRange(o: Opportunity, c: Capacity, risk: RiskProfile)
    ensures 6.4 <= ScoreMatch(o, c, risk).total <= 96.4
  {
    hide Round1, Weigh;
    var scores := Scores(o, c, risk);
    forall i | 0 <= i < |WEIGHTS|
      ensures Weigh(LOWEST)[i] <= Weigh(scores)[i] <= Weigh(HIGHEST)[i]
    {
      ScoresInRange(o, c, risk, i);
      WeightedMonotone(LOWEST, scores, i);
      WeightedMonotone(scores, HIGHEST, i);
    }
    ExtremesWeighed();
    SumMonotone(Weigh(LOWEST), Weigh(scores));
    SumMonotone(Weigh(scores), Weigh(HIGHEST));
    SumOfNine(0.0, 0.0, 0.0, 0.0, 0.0, 0.0, 4.9, 0.0, 1.5);
    SumOfNine(22.0, 17.0, 13.0, 13.0, 10.0, 10.0, 4.9, 5.0, 1.5);
    Round1Monotone(6.4, RealSum(Weigh(scores)));
    Round1Monotone(RealSum(Weigh(scores)), 96.4);
    Round1Keeps(64);
    Round1Keeps(964);
  }
}
