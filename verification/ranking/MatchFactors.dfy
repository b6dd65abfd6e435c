/**
 What each factor of a match score comes to, stated with the configured numbers
 and without the scoring functions: coverage in per cent, a band that is linear
 between two ends, an average of what is left of the risk ceilings, and the
 rounded weighted sum of the nine.
 */
module MatchFactors {
  import opened Results
  import opened Sequences
  import opened Text
  import opened MatchScoring

  /** The score is a whole number of tenths, the nearest to the exact value; of two equally near the larger. */
  predicate Rounds(score: real, exact: real) {
    (score * 10.0).Floor as real == score * 10.0 && exact - 0.05 < score <= exact + 0.05
  }

  lemma Round1Rounds(n: real)
    ensures Rounds(Round1(n), n)
  {
    var k := (n * 10.0 + 0.5).Floor;
    assert Round1(n) * 10.0 == k as real;
    assert (k as real).Floor == k;
  }

  lemma WholeScores(score: real)
    ensures Rounds(score, 0.0) ==> score == 0.0
    ensures Rounds(score, 100.0) ==> score == 100.0
  {
    var k := (score * 10.0).Floor;
    assert Rounds(score, 0.0) ==> -1 < k < 1;
    assert Rounds(score, 100.0) ==> 999 < k < 1001;
  }

  /** How many of the wanted codes, counted with repetition, are among the offered ones. */
  function Covered(wanted: seq<Text>, offered: seq<Text>): nat {
    if wanted == [] then 0
    else Covered(wanted[..|wanted| - 1], offered) + (if wanted[|wanted| - 1] in offered then 1 else 0)
  }

  lemma {:induction false} OverlapIsCovered(wanted: seq<Text>, offered: seq<Text>)
    ensures Overlap(wanted, offered) == Covered(wanted, offered)
  {
    if wanted != [] {
      var init, last := wanted[..|wanted| - 1], wanted[|wanted| - 1];
      assert wanted == init + [last];
      OverlapIsCovered(init, offered);
      FilterAppend(init, last, x => x in offered);
    }
  }

  lemma {:induction false} CoveredRange(wanted: seq<Text>, offered: seq<Text>)
    ensures Covered(wanted, offered) <= |wanted|
    ensures (forall x :: x in wanted ==> x in offered) ==> Covered(wanted, offered) == |wanted|
    ensures (forall x :: x in wanted ==> x !in offered) ==> Covered(wanted, offered) == 0
  {
    if wanted != [] {
      var init, last := wanted[..|wanted| - 1], wanted[|wanted| - 1];
      assert last in wanted && forall x :: x in init ==> x in wanted;
      CoveredRange(init, offered);
    }
  }

  lemma {:induction false} CoveredGrows(wanted: seq<Text>, offered: seq<Text>, more: seq<Text>)
    requires forall x :: x in offered ==> x in more
    ensures Covered(wanted, offered) <= Covered(wanted, more)
  {
    if wanted != [] {
      CoveredGrows(wanted[..|wanted| - 1], offered, more);
    }
  }

  // ----- coverage -----

  /** Geography: the covered part of the wanted jurisdictions in per cent; all of them 100, none of them 0. */
  lemma GeographyIsCoverage(o: Opportunity, c: Capacity)
    ensures o.jurisdictions == [] ==> GeographyLicensingFit(o, c) == 0.0
    ensures o.jurisdictions != [] ==>
      Rounds(GeographyLicensingFit(o, c), 100.0 * Covered(o.jurisdictions, c.jurisdictions) as real / |o.jurisdictions| as real)
    ensures o.jurisdictions != [] && (forall j :: j in o.jurisdictions ==> j in c.jurisdictions) ==> GeographyLicensingFit(o, c) == 100.0
    ensures (forall j :: j in o.jurisdictions ==> j !in c.jurisdictions) ==> GeographyLicensingFit(o, c) == 0.0
  {
    OverlapIsCovered(o.jurisdictions, c.jurisdictions);
    CoveredRange(o.jurisdictions, c.jurisdictions);
    if o.jurisdictions != [] {
      CoverageScore(Covered(o.jurisdictions, c.jurisdictions), |o.jurisdictions|);
    }
    hide Round1, Covered, Rounds, Overlap;
  }

  lemma CoverageScore(covered: nat, wanted: nat)
    requires wanted > 0
    ensures var score := Round1(covered as real / wanted as real * 100.0);
      && Rounds(score, 100.0 * covered as real / wanted as real)
      && (covered == wanted ==> score == 100.0)
      && (covered == 0 ==> score == 0.0)
  {
    var exact := covered as real / wanted as real * 100.0;
    SameQuotient(exact, 100.0 * covered as real, wanted as real);
    Round1Rounds(exact);
    WholeScores(Round1(exact));
    hide Round1, Rounds;
    if covered == wanted {
      SameQuotient(1.0, covered as real, wanted as real);
    }
    if covered == 0 {
      SameQuotient(0.0, covered as real, wanted as real);
    }
  }

  /** One more jurisdiction never lowers the score. */
  lemma MoreJurisdictionsNeverHurt(o: Opportunity, c: Capacity, extra: Text)
    ensures GeographyLicensingFit(o, c) <= GeographyLicensingFit(o, c.(jurisdictions := c.jurisdictions + [extra]))
  {
    var more := c.jurisdictions + [extra];
    OverlapIsCovered(o.jurisdictions, c.jurisdictions);
    OverlapIsCovered(o.jurisdictions, more);
    CoveredGrows(o.jurisdictions, c.jurisdictions, more);
    hide Round1, Covered, Overlap;
    if o.jurisdictions != [] {
      var wanted := |o.jurisdictions| as real;
      QuotientMonotone(Overlap(o.jurisdictions, c.jurisdictions) as real, Overlap(o.jurisdictions, more) as real, wanted);
      Round1Monotone(
        Overlap(o.jurisdictions, c.jurisdictions) as real / wanted * 100.0,
        Overlap(o.jurisdictions, more) as real / wanted * 100.0);
    }
  }

  /** MCCs: coverage in per cent, less 2 for every accepted code beyond the covered ones but 20 at most, and not below 0. */
  lemma MccIsCoverageLessPenalty(o: Opportunity, c: Capacity)
    ensures o.mccs == [] ==> MccProductFit(o, c) == 0.0
    ensures o.mccs != [] ==>
      var covered := Covered(o.mccs, c.mccsAccepted);
      var extras := |c.mccsAccepted| - covered;
      var penalty := if extras <= 0 then 0.0 else if extras >= 10 then 20.0 else 2.0 * extras as real;
      var exact := 100.0 * covered as real / |o.mccs| as real - penalty;
      Rounds(MccProductFit(o, c), if exact < 0.0 then 0.0 else exact)
  {
    OverlapIsCovered(o.mccs, c.mccsAccepted);
    CoveredRange(o.mccs, c.mccsAccepted);
    hide Round1, Covered, Overlap;
    if o.mccs != [] {
      var covered := Covered(o.mccs, c.mccsAccepted);
      PenaltyIs(|c.mccsAccepted|, covered);
      CoverageLess(covered, |o.mccs|, SpecificityPenalty(|c.mccsAccepted|, covered));
      hide SpecificityPenalty, Clamp, Rounds;
    }
  }

  lemma CoverageLess(covered: nat, wanted: nat, penalty: real)
    requires covered <= wanted && wanted > 0 && penalty >= 0.0
    ensures var exact := 100.0 * covered as real / wanted as real - penalty;
      Rounds(Round1(Clamp(covered as real / wanted as real * 100.0 - penalty)), if exact < 0.0 then 0.0 else exact)
  {
    QuotientMonotone(covered as real, wanted as real, wanted as real);
    SameQuotient(covered as real / wanted as real * 100.0, 100.0 * covered as real, wanted as real);
    var exact := covered as real / wanted as real * 100.0 - penalty;
    Round1Rounds(Clamp(exact));
    hide Round1, Rounds;
    assert Clamp(exact) == if exact < 0.0 then 0.0 else exact;
  }

  lemma PenaltyIs(accepted: nat, matched: nat)
    ensures SpecificityPenalty(accepted, matched)
         == if accepted <= matched then 0.0 else if accepted - matched >= 10 then 20.0 else 2.0 * (accepted - matched) as real
  {}

  // ----- bands -----

  lemma Clamped(n: real)
    ensures n <= 0.0 ==> Round1(Clamp(n)) == 0.0
    ensures n >= 100.0 ==> Round1(Clamp(n)) == 100.0
    ensures 0.0 <= n <= 100.0 ==> Rounds(Round1(Clamp(n)), n)
  {
    Round1Rounds(Clamp(n));
    WholeScores(Round1(Clamp(n)));
  }

  /** Volume: 0 up to the demand, 100 from five times the demand, and linear between; neutral without comparable figures. */
  lemma VolumeIsHeadroom(o: Opportunity, c: Capacity)
    ensures o.currency != c.currency || o.movable30dMinor == 0 ==> VolumeTicketFit(o, c) == 50.0
    ensures o.currency == c.currency && o.movable30dMinor != 0 ==>
      var ratio := c.monthlyCapacityMinor as real / o.movable30dMinor as real;
      && (ratio <= 1.0 ==> VolumeTicketFit(o, c) == 0.0)
      && (ratio >= 5.0 ==> VolumeTicketFit(o, c) == 100.0)
      && (1.0 <= ratio <= 5.0 ==> Rounds(VolumeTicketFit(o, c), 25.0 * (ratio - 1.0)))
    ensures o.currency == c.currency && o.movable30dMinor > 0 ==>
      var capacity, demand := c.monthlyCapacityMinor, o.movable30dMinor;
      && (capacity <= demand ==> VolumeTicketFit(o, c) == 0.0)
      && (capacity >= 5 * demand ==> VolumeTicketFit(o, c) == 100.0)
      && (demand <= capacity <= 5 * demand ==> Rounds(VolumeTicketFit(o, c), 25.0 * (capacity - demand) as real / demand as real))
  {
    if o.currency == c.currency && o.movable30dMinor != 0 {
      var capacity, demand := c.monthlyCapacityMinor as real, o.movable30dMinor as real;
      var ratio := capacity / demand;
      var n := (ratio - 1.0) / (5.0 - 1.0) * 100.0;
      if o.movable30dMinor > 0 {
        Headroom(capacity, demand);
      }
      Clamped(n);
      hide Round1, Clamp, Rounds;
      assert VolumeTicketFit(o, c) == Round1(Clamp(n));
      assert n == 25.0 * (ratio - 1.0);
    }
  }

  lemma Headroom(capacity: real, demand: real)
    requires demand > 0.0
    ensures (capacity / demand - 1.0) / (5.0 - 1.0) * 100.0 == 25.0 * (capacity - demand) / demand
    ensures capacity <= demand ==> 25.0 * (capacity - demand) / demand <= 0.0
    ensures capacity >= 5.0 * demand ==> 25.0 * (capacity - demand) / demand >= 100.0
    ensures demand <= capacity <= 5.0 * demand ==> 0.0 <= 25.0 * (capacity - demand) / demand <= 100.0
  {
    assert (capacity / demand - 1.0) * demand == capacity - demand;
    SameQuotient(25.0 * (capacity / demand - 1.0), 25.0 * (capacity - demand), demand);
    if capacity <= demand {
      QuotientMonotone(capacity, demand, demand);
    } else {
      QuotientMonotone(demand, capacity, demand);
    }
    assert 5.0 * demand / demand == 5.0;
    if capacity >= 5.0 * demand {
      QuotientMonotone(5.0 * demand, capacity, demand);
    } else {
      QuotientMonotone(capacity, 5.0 * demand, demand);
    }
  }

  lemma SameQuotient(q: real, n: real, d: real)
    requires d > 0.0 && q * d == n
    ensures q == n / d
  {}

  /** Settlement: 100 up to one day, 0 from ten days, linear between; 0 in another currency. */
  lemma SettlementIsCadence(o: Opportunity, c: Capacity)
    ensures o.currency != c.currency ==> SettlementCurrencyFit(o, c) == 0.0
    ensures o.currency == c.currency ==>
      var days := c.settlementCadenceDays;
      && (days <= 1.0 ==> SettlementCurrencyFit(o, c) == 100.0)
      && (days >= 10.0 ==> SettlementCurrencyFit(o, c) == 0.0)
      && (1.0 <= days <= 10.0 ==> Rounds(SettlementCurrencyFit(o, c), (10.0 - days) * 100.0 / 9.0))
  {
    Clamped((1.0 - (c.settlementCadenceDays - 1.0) / 9.0) * 100.0);
    hide Round1, Clamp, Rounds;
  }

  /** Commercial terms: 100 up to 80 basis points, 0 from 450, linear between; neutral without terms. */
  lemma CommercialIsFee(c: Capacity)
    ensures c.commercialTerms == None ==> CommercialUtility(c) == 50.0
    ensures c.commercialTerms.Some? ==>
      var mdrBps := c.commercialTerms.value.mdrBps;
      && (mdrBps <= 80.0 ==> CommercialUtility(c) == 100.0)
      && (mdrBps >= 450.0 ==> CommercialUtility(c) == 0.0)
      && (80.0 <= mdrBps <= 450.0 ==> Rounds(CommercialUtility(c), (450.0 - mdrBps) * 100.0 / 370.0))
  {
    if c.commercialTerms.Some? {
      Clamped((1.0 - (c.commercialTerms.value.mdrBps - 80.0) / 370.0) * 100.0);
    }
    hide Round1, Clamp, Rounds;
  }

  // ----- risk -----

  /** A rate with a positive ceiling takes part in the risk score. */
  predicate TakesPart(rate: Option<real>, ceiling: real) {
    rate.Some? && ceiling > 0.0
  }

  function Part(rate: Option<real>, ceiling: real): real {
    if TakesPart(rate, ceiling) then rate.value / ceiling else 0.0
  }

  /** Risk: the unused part of the ceilings in per cent, on average over the rates that are known; neutral without any. */
  lemma RiskIsUnusedCeiling(c: Capacity, risk: RiskProfile)
    ensures var n :=
              (if TakesPart(risk.chargebackBps, c.maxChargebackBps) then 1 else 0)
              + (if TakesPart(risk.fraudBps, c.maxFraudBps) then 1 else 0)
              + (if TakesPart(risk.refundBps, c.maxRefundBps) then 1 else 0);
            var used :=
              Part(risk.chargebackBps, c.maxChargebackBps)
              + Part(risk.fraudBps, c.maxFraudBps)
              + Part(risk.refundBps, c.maxRefundBps);
            && (n == 0 ==> RiskHistoryFit(c, risk) == 50.0)
            && (n > 0 ==>
              var exact := (1.0 - used / n as real) * 100.0;
              && (exact <= 0.0 ==> RiskHistoryFit(c, risk) == 0.0)
              && (exact >= 100.0 ==> RiskHistoryFit(c, risk) == 100.0)
              && (0.0 <= exact <= 100.0 ==> Rounds(RiskHistoryFit(c, risk), exact)))
  {
    var a := Utilization(risk.chargebackBps, c.maxChargebackBps);
    var b := Utilization(risk.fraudBps, c.maxFraudBps);
    var d := Utilization(risk.refundBps, c.maxRefundBps);
    PartIsSum(risk.chargebackBps, c.maxChargebackBps);
    PartIsSum(risk.fraudBps, c.maxFraudBps);
    PartIsSum(risk.refundBps, c.maxRefundBps);
    hide Utilization, Part, TakesPart, RealSum, Round1, Clamp, Rounds;
    SumAppendAtMostOne(a, b);
    SumAppendAtMostOne(a + b, d);
    var us := Utilizations(c, risk);
    if us != [] {
      Clamped((1.0 - RealSum(us) / |us| as real) * 100.0);
    }
  }

  lemma PartIsSum(rate: Option<real>, ceiling: real)
    ensures RealSum(Utilization(rate, ceiling)) == Part(rate, ceiling)
    ensures |Utilization(rate, ceiling)| == if TakesPart(rate, ceiling) then 1 else 0
  {}

  lemma SumAppendAtMostOne(xs: seq<real>, ys: seq<real>)
    requires |ys| <= 1
    ensures RealSum(xs + ys) == RealSum(xs) + RealSum(ys)
  {
    if ys == [] {
      assert xs + ys == xs;
    } else {
      assert ys == [ys[0]] && ys[..0] == [];
      RealSumAppend(xs, ys[0]);
    }
  }

  // ----- the breakdown -----

  /** Which factor stands where, with which score and weight; two scores are fixed. */
  lemma FactorsAre(o: Opportunity, c: Capacity, risk: RiskProfile)
    ensures var f := ScoreMatch(o, c, risk).factors;
      && |f| == 9
      && f[0].score == MccProductFit(o, c) && f[0].weight == 0.22
      && f[1].score == GeographyLicensingFit(o, c) && f[1].weight == 0.17
      && f[2].score == VolumeTicketFit(o, c) && f[2].weight == 0.13
      && f[3].score == RiskHistoryFit(c, risk) && f[3].weight == 0.13
      && f[4].score == SettlementCurrencyFit(o, c) && f[4].weight == 0.10
      && f[5].score == CommercialUtility(c) && f[5].weight == 0.10
      && f[6].score == 70.0 && f[6].weight == 0.07
      && f[7].score == (match c.freshnessClass case Fresh => 100.0 case Aging => 60.0 case Stale => 20.0 case Unknown => 0.0)
      && f[7].weight == 0.05
      && f[8].score == 50.0 && f[8].weight == 0.03
  {
    hide MccProductFit, GeographyLicensingFit, VolumeTicketFit, RiskHistoryFit, SettlementCurrencyFit, CommercialUtility, Weigh, RealSum, Round1;
  }

  /** Every contribution is its score times its weight, to the nearest tenth. */
  lemma ContributionIsWeighed(o: Opportunity, c: Capacity, risk: RiskProfile, i: nat)
    requires i < 9
    ensures var f := ScoreMatch(o, c, risk).factors; |f| == 9 && Rounds(f[i].contribution, f[i].score * f[i].weight)
  {
    hide Scores, Weigh, Round1, RealSum, Rounds;
    var f := ScoreMatch(o, c, risk).factors[i];
    WeighedAt(Scores(o, c, risk), i, f.score, f.weight, f.contribution);
    hide WEIGHTS;
  }

  /** The total is the sum of the nine contributions. */
  lemma TotalIsSum(o: Opportunity, c: Capacity, risk: RiskProfile)
    ensures var f := ScoreMatch(o, c, risk).factors;
      && |f| == 9
      && Rounds(
        ScoreMatch(o, c, risk).total,
        f[0].contribution + f[1].contribution + f[2].contribution + f[3].contribution + f[4].contribution
        + f[5].contribution + f[6].contribution + f[7].contribution + f[8].contribution)
  {
    hide Round1, Rounds, Scores, RealSum, Weigh;
    var w, f := Weigh(Scores(o, c, risk)), ScoreMatch(o, c, risk).factors;
    assert forall i :: 0 <= i < 9 ==> f[i].contribution == w[i];
    assert w == [w[0], w[1], w[2], w[3], w[4], w[5], w[6], w[7], w[8]];
    SumOfNine(w[0], w[1], w[2], w[3], w[4], w[5], w[6], w[7], w[8]);
    Round1Rounds(RealSum(w));
  }

  lemma WeighedAt(scores: seq<real>, i: nat, score: real, weight: real, contribution: real)
    requires |scores| == |WEIGHTS| && i < |WEIGHTS|
    requires score == scores[i] && weight == WEIGHTS[i] && contribution == Weigh(scores)[i]
    ensures Rounds(contribution, score * weight)
  {
    hide Round1;
    forall n ensures Rounds(Round1(n), n) {
      Round1Rounds(n);
    }
  }
}
