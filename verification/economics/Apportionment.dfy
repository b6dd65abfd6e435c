/** Largest-remainder apportionment of an integer amount by basis points. */
module Apportionment {
  // Every claimant gets the floor of its exact share, and the units left over go, one each, to the largest remainders.

  import opened Sequences
  import opened Sorting
  import opened Text

  const WHOLE: int := 10_000

  datatype Claimant = Claimant(id: Text, bps: int)

  datatype Share = Share(claimant: Claimant, floorShare: int, remainder: int)

  /** amount * bps is split into whole units and ten-thousandths before anything is rounded. */
  function ShareOf(amount: int, c: Claimant): Share {
    Share(c, amount * c.bps / WHOLE, amount * c.bps % WHOLE)
  }

  function Shares(amount: int, cs: seq<Claimant>): seq<Share> {
    Map(cs, c => ShareOf(amount, c))
  }

  /** Larger remainder first; equal remainders by id. */
  predicate RanksBefore(a: Share, b: Share) {
    if a.remainder != b.remainder then a.remainder > b.remainder else Less(a.claimant.id, b.claimant.id)
  }

  function Ranked(shares: seq<Share>): seq<Share> {
    Sort(shares, RanksBefore)
  }

  function Floors(shares: seq<Share>): seq<int> {
    Map(shares, (s: Share) => s.floorShare)
  }

  function Remainders(shares: seq<Share>): seq<int> {
    Map(shares, (s: Share) => s.remainder)
  }

  function Leftover(amount: int, shares: seq<Share>): int {
    amount - Sum(Floors(shares))
  }

  function Ids(shares: seq<Share>): set<Text> {
    set s | s in shares :: s.claimant.id
  }

  /** The ids that get one extra unit: the first ones in the ranking, as many as units are left over. */
  function Winners(amount: int, shares: seq<Share>): set<Text> {
    var left := Leftover(amount, shares);
    if 0 <= left <= |Ranked(shares)| then Ids(Ranked(shares)[..left]) else {}
  }

  function Awarded(winners: set<Text>, s: Share): int {
    s.floorShare + (if s.claimant.id in winners then 1 else 0)
  }

  /** The amount of each claimant, in the claimants' order. */
  function Amounts(amount: int, cs: seq<Claimant>): (amounts: seq<int>)
    ensures |amounts| == |cs|
  {
    var shares := Shares(amount, cs);
    Map(shares, s => Awarded(Winners(amount, shares), s))
  }

  // ----- what the source demands before it apportions -----

  function BpsTotal(cs: seq<Claimant>): int {
    Sum(Map(cs, (c: Claimant) => c.bps))
  }

  ghost predicate DistinctIds(cs: seq<Claimant>) {
    forall i, j :: 0 <= i < j < |cs| ==> cs[i].id != cs[j].id
  }

  ghost predicate Apportionable(amount: int, cs: seq<Claimant>) {
    && amount >= 0
    && DistinctIds(cs)
    && (forall i :: 0 <= i < |cs| ==> cs[i].bps >= 0)
    && BpsTotal(cs) == WHOLE
  }

  // ----- the ranking is a sort -----

  lemma RanksBeforeIsWeakOrder()
    ensures WeakOrder(RanksBefore)
  {
    forall a, b | RanksBefore(a, b) ensures !RanksBefore(b, a) {
      if a.remainder == b.remainder {
        LessIsAsymmetric(a.claimant.id, b.claimant.id);
      }
    }
    forall a, b, c | RanksBefore(a, c) ensures RanksBefore(a, b) || RanksBefore(b, c) {
      if a.remainder == c.remainder == b.remainder {
        LessSplits(a.claimant.id, b.claimant.id, c.claimant.id);
      }
    }
  }

  lemma SharesHaveNoTies(amount: int, cs: seq<Claimant>)
    requires DistinctIds(cs)
    ensures NoTies(Shares(amount, cs), RanksBefore) && Distinct(Shares(amount, cs))
  {
    var shares := Shares(amount, cs);
    forall a, b | a in shares && b in shares && !RanksBefore(a, b) && !RanksBefore(b, a) ensures a == b {
      LessIsTotal(a.claimant.id, b.claimant.id);
      var i :| 0 <= i < |cs| && shares[i] == a;
      var j :| 0 <= j < |cs| && shares[j] == b;
    }
  }

  /** The ranking is a rearrangement of the shares in which ids are still all different. */
  lemma RankingFacts(amount: int, cs: seq<Claimant>)
    requires DistinctIds(cs)
    ensures var ranked := Ranked(Shares(amount, cs));
            && Permutation(ranked, Shares(amount, cs)) && |ranked| == |cs| && Sorted(ranked, RanksBefore)
            && (forall s :: s in ranked <==> s in Shares(amount, cs))
            && (forall i, j :: 0 <= i < j < |ranked| ==> ranked[i].claimant.id != ranked[j].claimant.id)
  {
    var shares := Shares(amount, cs);
    var ranked := Ranked(shares);
    RanksBeforeIsWeakOrder();
    SortIsSorted(shares, RanksBefore);
    SameElements(ranked, shares);
    SharesHaveNoTies(amount, cs);
    DistinctPermutation(shares, ranked);
    forall i, j | 0 <= i < j < |ranked| ensures ranked[i].claimant.id != ranked[j].claimant.id {
      assert ranked[i] in shares && ranked[j] in shares && ranked[i] != ranked[j];
    }
  }

  // ----- how many units are left over -----

  lemma {:induction false} NumeratorsAddUp(amount: int, cs: seq<Claimant>)
    ensures WHOLE * Sum(Floors(Shares(amount, cs))) + Sum(Remainders(Shares(amount, cs))) == amount * BpsTotal(cs)
  {
    if cs != [] {
      var init, c := cs[..|cs| - 1], cs[|cs| - 1];
      NumeratorsAddUp(amount, init);
      var shares, s := Shares(amount, init), ShareOf(amount, c);
      assert Shares(amount, cs) == shares + [s];
      assert Floors(shares + [s]) == Floors(shares) + [s.floorShare];
      assert Remainders(shares + [s]) == Remainders(shares) + [s.remainder];
      SumAppend(Floors(shares), s.floorShare);
      SumAppend(Remainders(shares), s.remainder);
      assert amount * (BpsTotal(init) + c.bps) == amount * BpsTotal(init) + amount * c.bps;
    }
  }

  function Positive(shares: seq<Share>): seq<Share> {
    Filter(shares, (s: Share) => s.remainder > 0)
  }

  /** Each remainder is less than one unit, and only positive ones contribute. */
  lemma {:induction false} RemainderBound(shares: seq<Share>)
    requires forall s :: s in shares ==> 0 <= s.remainder < WHOLE
    ensures 0 <= Sum(Remainders(shares)) <= (WHOLE - 1) * |Positive(shares)|
  {
    if shares != [] {
      var init, s := shares[..|shares| - 1], shares[|shares| - 1];
      assert shares == init + [s];
      RemainderBound(init);
      assert Remainders(shares) == Remainders(init) + [s.remainder];
      SumAppend(Remainders(init), s.remainder);
    }
  }

  /** There are never negative leftovers, and always fewer than there are positive remainders to take them. */
  lemma LeftoverBounds(amount: int, cs: seq<Claimant>)
    requires Apportionable(amount, cs)
    ensures var shares := Shares(amount, cs);
            0 <= Leftover(amount, shares) && (Leftover(amount, shares) == 0 || Leftover(amount, shares) < |Positive(shares)|)
  {
    NumeratorsAddUp(amount, cs);
    RemainderBound(Shares(amount, cs));
  }

  // ----- who wins a unit -----

  lemma WinnersAreFirst(amount: int, cs: seq<Claimant>, k: nat)
    requires Apportionable(amount, cs) && k < |cs|
    ensures var shares := Shares(amount, cs);
            && |Ranked(shares)| == |cs| && 0 <= Leftover(amount, shares) < |cs|
            && (Ranked(shares)[k].claimant.id in Winners(amount, shares) <==> k < Leftover(amount, shares))
  {
    var shares := Shares(amount, cs);
    var ranked, left := Ranked(shares), Leftover(amount, shares);
    RankingFacts(amount, cs);
    LeftoverBounds(amount, cs);
    FilterIsNoLonger(shares, (s: Share) => s.remainder > 0);
    var first := ranked[..left];
    if k < left {
      assert first[k] == ranked[k];
    }
  }

  lemma {:induction false} PositiveWithin(ranked: seq<Share>, k: nat)
    requires k <= |ranked| && forall i :: k <= i < |ranked| ==> ranked[i].remainder <= 0
    ensures |Positive(ranked)| <= k
  {
    if |ranked| == k {
      FilterIsNoLonger(ranked, (s: Share) => s.remainder > 0);
    } else {
      PositiveWithin(ranked[..|ranked| - 1], k);
    }
  }

  /** A unit is never given to a claimant whose exact share is whole. */
  lemma WinnersHaveRemainders(amount: int, cs: seq<Claimant>, s: Share)
    requires Apportionable(amount, cs) && s in Shares(amount, cs)
    requires s.claimant.id in Winners(amount, Shares(amount, cs))
    ensures s.remainder > 0
  {
    var shares := Shares(amount, cs);
    var ranked, left := Ranked(shares), Leftover(amount, shares);
    RankingFacts(amount, cs);
    LeftoverBounds(amount, cs);
    var k :| 0 <= k < |ranked| && ranked[k] == s;
    WinnersAreFirst(amount, cs, k);
    if s.remainder == 0 {
      forall i | k <= i < |ranked| ensures ranked[i].remainder <= 0 {
        if i > k {
          assert !RanksBefore(ranked[i], ranked[k]);
        }
      }
      PositiveWithin(ranked, k);
      FilterPermutation(ranked, shares, (t: Share) => t.remainder > 0);
      SameElements(Positive(ranked), Positive(shares));
    }
  }

  // ----- exactness and quota -----

  function Bonus(winners: set<Text>, s: Share): int {
    if s.claimant.id in winners then 1 else 0
  }

  lemma {:induction false} SumOfIndicator(xs: seq<int>, k: nat)
    requires k <= |xs| && forall i :: 0 <= i < |xs| ==> xs[i] == if i < k then 1 else 0
    ensures Sum(xs) == k
  {
    if xs != [] {
      SumOfIndicator(xs[..|xs| - 1], if k == |xs| then k - 1 else k);
    }
  }

  lemma {:induction false} SumAwarded(winners: set<Text>, shares: seq<Share>)
    ensures Sum(Map(shares, s => Awarded(winners, s))) == Sum(Floors(shares)) + Sum(Map(shares, s => Bonus(winners, s)))
  {
    if shares != [] {
      var init, s := shares[..|shares| - 1], shares[|shares| - 1];
      SumAwarded(winners, init);
      assert Map(shares, s => Awarded(winners, s)) == Map(init, s => Awarded(winners, s)) + [Awarded(winners, s)];
      assert Floors(shares) == Floors(init) + [s.floorShare];
      assert Map(shares, s => Bonus(winners, s)) == Map(init, s => Bonus(winners, s)) + [Bonus(winners, s)];
      SumAppend(Map(init, s => Awarded(winners, s)), Awarded(winners, s));
      SumAppend(Floors(init), s.floorShare);
      SumAppend(Map(init, s => Bonus(winners, s)), Bonus(winners, s));
    }
  }

  lemma NotEmpty(amount: int, cs: seq<Claimant>)
    requires Apportionable(amount, cs)
    ensures cs != []
  {}

  /** Nothing leaks: the amounts add up to what was to be split. */
  lemma AmountsAddUp(amount: int, cs: seq<Claimant>)
    requires Apportionable(amount, cs)
    ensures Sum(Amounts(amount, cs)) == amount
  {
    NotEmpty(amount, cs);
    hide Ranked, Winners, Sum, Map, Sort, Sorted, Less, BpsTotal, Floors, Permutation;
    var shares := Shares(amount, cs);
    var ranked, winners := Ranked(shares), Winners(amount, shares);
    RankingFacts(amount, cs);
    WinnersAreFirst(amount, cs, 0);
    var bonuses := Map(ranked, s => Bonus(winners, s));
    forall k | 0 <= k < |ranked| ensures bonuses[k] == if k < Leftover(amount, shares) then 1 else 0 {
      WinnersAreFirst(amount, cs, k);
    }
    SumOfIndicator(bonuses, Leftover(amount, shares));
    MapPermutation(ranked, shares, s => Bonus(winners, s));
    SumPermutation(bonuses, Map(shares, s => Bonus(winners, s)));
    SumAwarded(winners, shares);
  }

  /** Every amount is the floor or the ceiling of the exact share amount * bps / 10000. */
  lemma AmountsMeetQuota(amount: int, cs: seq<Claimant>, i: nat)
    requires Apportionable(amount, cs) && i < |cs|
    ensures var a, exact := Amounts(amount, cs)[i], amount * cs[i].bps;
            a == exact / WHOLE || (a == exact / WHOLE + 1 && exact % WHOLE != 0)
  {
    var s := Shares(amount, cs)[i];
    if s.claimant.id in Winners(amount, Shares(amount, cs)) {
      WinnersHaveRemainders(amount, cs, s);
    }
  }

  // ----- optimality -----

  function Abs(x: int): int {
    if x < 0 then -x else x
  }

  function Deviation(amount: int, c: Claimant, given: int): int {
    Abs(WHOLE * given - amount * c.bps)
  }

  function TotalDeviation(amount: int, cs: seq<Claimant>, given: seq<int>): int
    requires |cs| == |given|
  {
    if cs == [] then 0
    else TotalDeviation(amount, cs[..|cs| - 1], given[..|cs| - 1]) + Deviation(amount, cs[|cs| - 1], given[|cs| - 1])
  }

  /** A remainder that separates the winners from the rest. */
  ghost predicate Separated(amount: int, cs: seq<Claimant>, winners: set<Text>, threshold: int) {
    forall s :: s in Shares(amount, cs) ==> if s.claimant.id in winners then s.remainder >= threshold else s.remainder <= threshold
  }

  lemma RemaindersInRange(amount: int, cs: seq<Claimant>)
    ensures forall s :: s in Shares(amount, cs) ==> 0 <= s.remainder < WHOLE
  {}

  lemma RemaindersDescend(ranked: seq<Share>)
    requires Sorted(ranked, RanksBefore)
    ensures forall i, j :: 0 <= i <= j < |ranked| ==> ranked[i].remainder >= ranked[j].remainder
  {
    forall i, j | 0 <= i < j < |ranked| ensures ranked[i].remainder >= ranked[j].remainder {
      assert !RanksBefore(ranked[j], ranked[i]);
    }
  }

  /** The smallest remainder that wins a unit; WHOLE when there is nothing to win. */
  function Threshold(ranked: seq<Share>, left: int): int
    requires 0 <= left <= |ranked|
  {
    if left == 0 then WHOLE else ranked[left - 1].remainder
  }

  lemma SeparatedAt(amount: int, cs: seq<Claimant>, k: nat)
    requires Apportionable(amount, cs) && k < |cs|
    ensures var ranked, left := Ranked(Shares(amount, cs)), Leftover(amount, Shares(amount, cs));
            && |ranked| == |cs| && 0 <= left < |cs|
            && (if ranked[k].claimant.id in Winners(amount, Shares(amount, cs)) then ranked[k].remainder >= Threshold(ranked, left)
                else ranked[k].remainder <= Threshold(ranked, left))
            && 0 <= Threshold(ranked, left) <= WHOLE
  {
    hide Ranked, Winners, Leftover, Sum, Map, Permutation, Sorted, RanksBefore;
    var ranked := Ranked(Shares(amount, cs));
    RankingFacts(amount, cs);
    WinnersAreFirst(amount, cs, k);
    RemaindersDescend(ranked);
    RemaindersInRange(amount, cs);
    assert forall i :: 0 <= i < |ranked| ==> ranked[i] in Shares(amount, cs);
  }

  lemma PlaceOf(amount: int, cs: seq<Claimant>, s: Share) returns (k: nat)
    requires DistinctIds(cs) && s in Shares(amount, cs)
    ensures k < |cs| == |Ranked(Shares(amount, cs))| && Ranked(Shares(amount, cs))[k] == s
  {
    RankingFacts(amount, cs);
    hide Ranked, Shares, Permutation, Sorted;
    var ranked := Ranked(Shares(amount, cs));
    k :| 0 <= k < |ranked| && ranked[k] == s;
  }

  lemma ThresholdExists(amount: int, cs: seq<Claimant>) returns (threshold: int)
    requires Apportionable(amount, cs)
    ensures 0 <= threshold <= WHOLE && Separated(amount, cs, Winners(amount, Shares(amount, cs)), threshold)
  {
    NotEmpty(amount, cs);
    SeparatedAt(amount, cs, 0);
    hide Ranked, Winners, Leftover, RanksBefore, Threshold, Shares;
    var shares := Shares(amount, cs);
    threshold := Threshold(Ranked(shares), Leftover(amount, shares));
    forall s | s in shares
      ensures if s.claimant.id in Winners(amount, shares) then s.remainder >= threshold else s.remainder <= threshold
    {
      var k := PlaceOf(amount, cs, s);
      SeparatedAt(amount, cs, k);
    }
  }

  lemma MulNonNegative(x: int, y: int)
    requires x >= 0 && y >= 0
    ensures x * y >= 0
  {}

  lemma MulAtLeast(x: int, y: int)
    requires x >= 0 && y >= 1
    ensures x * y >= x
  {
    MulNonNegative(x, y - 1);
  }

  /** At the price WHOLE - 2 * threshold per unit, no amount suits one claimant better than the awarded one. */
  lemma AwardIsBestAtPrice(remainder: int, bonus: int, threshold: int, extra: int)
    requires 0 <= remainder < WHOLE && 0 <= threshold <= WHOLE
    requires bonus == 0 || bonus == 1
    requires if bonus == 1 then remainder >= threshold else remainder <= threshold
    ensures Abs(WHOLE * extra - remainder) >= Abs(WHOLE * bonus - remainder) + (WHOLE - 2 * threshold) * (extra - bonus)
  {
    var k := extra - bonus;
    if k >= 0 {
      MulNonNegative(threshold, k);
      if bonus == 0 && k >= 1 {
        MulAtLeast(threshold, k);
      }
      assert (WHOLE - 2 * threshold) * k == WHOLE * k - 2 * (threshold * k);
    } else {
      MulNonNegative(WHOLE - threshold, -k);
      MulAtLeast(WHOLE - threshold, -k);
      assert (WHOLE - 2 * threshold) * k == -(WHOLE * k) + 2 * ((WHOLE - threshold) * k);
      assert (WHOLE - threshold) * k == -((WHOLE - threshold) * -k);
    }
  }

  /** For one claimant, giving another amount than the awarded one gains at most the price of the difference. */
  lemma DeviationAtPrice(amount: int, c: Claimant, given: int, winners: set<Text>, threshold: int)
    requires 0 <= threshold <= WHOLE
    requires Separated(amount, [c], winners, threshold)
    ensures var awarded := Awarded(winners, ShareOf(amount, c));
            Deviation(amount, c, given) >= Deviation(amount, c, awarded) + Price(threshold, given - awarded)
  {
    var s := ShareOf(amount, c);
    assert Shares(amount, [c])[0] == s;
    var exact := amount * c.bps;
    assert exact == WHOLE * s.floorShare + s.remainder;
    AwardIsBestAtPrice(s.remainder, Bonus(winners, s), threshold, given - s.floorShare);
  }

  /** What moving units between claimants is worth, when each costs WHOLE - 2 * threshold. */
  function Price(threshold: int, units: int): int {
    (WHOLE - 2 * threshold) * units
  }

  lemma PriceAdds(threshold: int, d: int, e: int)
    ensures Price(threshold, d + e) == Price(threshold, d) + Price(threshold, e)
  {}

  /** The amounts that go with a set of winners. */
  function AwardedTo(amount: int, cs: seq<Claimant>, winners: set<Text>): (awarded: seq<int>)
    ensures |awarded| == |cs|
  {
    Map(Shares(amount, cs), s => Awarded(winners, s))
  }

  /** The last claimant apart from the others. */
  lemma LastClaimant(amount: int, cs: seq<Claimant>, winners: set<Text>, threshold: int)
    requires cs != [] && Separated(amount, cs, winners, threshold)
    ensures var n, init := |cs| - 1, cs[..|cs| - 1];
      && Separated(amount, init, winners, threshold) && Separated(amount, [cs[n]], winners, threshold)
      && AwardedTo(amount, cs, winners) == AwardedTo(amount, init, winners) + [Awarded(winners, ShareOf(amount, cs[n]))]
  {
    hide Map, ShareOf, Awarded;
    var n := |cs| - 1;
    assert Shares(amount, cs) == Shares(amount, cs[..n]) + [ShareOf(amount, cs[n])];
    assert Shares(amount, [cs[n]]) == [ShareOf(amount, cs[n])];
  }

  lemma {:induction false} TotalAtPrice(amount: int, cs: seq<Claimant>, given: seq<int>, winners: set<Text>, threshold: int)
    requires |given| == |cs| && 0 <= threshold <= WHOLE && Separated(amount, cs, winners, threshold)
    ensures var awarded := AwardedTo(amount, cs, winners);
            TotalDeviation(amount, cs, given)
            >= TotalDeviation(amount, cs, awarded) + Price(threshold, Sum(given) - Sum(awarded))
  {
    hide AwardedTo, Separated, Awarded, Deviation, Price;
    PriceAdds(threshold, 0, 0);
    if cs != [] {
      var n := |cs| - 1;
      var rest, last := AwardedTo(amount, cs[..n], winners), Awarded(winners, ShareOf(amount, cs[n]));
      LastClaimant(amount, cs, winners, threshold);
      TotalAtPrice(amount, cs[..n], given[..n], winners, threshold);
      DeviationAtPrice(amount, cs[n], given[n], winners, threshold);
      SumAppend(rest, last);
      assert (rest + [last])[..n] == rest;
      PriceAdds(threshold, Sum(given[..n]) - Sum(rest), given[n] - last);
    }
  }

  /**
   Hamilton's method is optimal: among all integer amounts with the same total, the awarded ones are closest to the
   exact shares.
   */
  lemma AmountsAreOptimal(amount: int, cs: seq<Claimant>, given: seq<int>)
    requires Apportionable(amount, cs)
    requires |given| == |cs| && Sum(given) == amount
    ensures TotalDeviation(amount, cs, Amounts(amount, cs)) <= TotalDeviation(amount, cs, given)
  {
    hide Apportionable, TotalDeviation, Winners, Sum, Map;
    var threshold := ThresholdExists(amount, cs);
    TotalAtPrice(amount, cs, given, Winners(amount, Shares(amount, cs)), threshold);
    AmountsAddUp(amount, cs);
  }

  // ----- order independence and fairness -----

  /** The amount a claimant gets does not depend on the order the claimants are listed in. */
  lemma AmountsIgnoreOrder(amount: int, cs: seq<Claimant>, ds: seq<Claimant>, i: nat, j: nat)
    requires Apportionable(amount, cs) && Permutation(cs, ds)
    requires i < |cs| && j < |ds| && cs[i].id == ds[j].id
    ensures Amounts(amount, cs)[i] == Amounts(amount, ds)[j]
  {
    WinnersIgnoreOrder(amount, cs, ds);
    SameElements(cs, ds);
    assert ds[j] in cs;
    var k :| 0 <= k < |cs| && cs[k] == ds[j];
    assert k == i;
  }

  lemma WinnersIgnoreOrder(amount: int, cs: seq<Claimant>, ds: seq<Claimant>)
    requires DistinctIds(cs) && Permutation(cs, ds)
    ensures Winners(amount, Shares(amount, cs)) == Winners(amount, Shares(amount, ds))
  {
    var shares, others := Shares(amount, cs), Shares(amount, ds);
    MapPermutation(cs, ds, c => ShareOf(amount, c));
    RanksBeforeIsWeakOrder();
    SharesHaveNoTies(amount, cs);
    SortPermutation(shares, others, RanksBefore);
    MapPermutation(shares, others, (s: Share) => s.floorShare);
    SumPermutation(Floors(shares), Floors(others));
  }

  lemma MulMonotone(x: int, y: int, z: int)
    requires x >= 0 && y <= z
    ensures x * y <= x * z
  {
    MulNonNegative(x, z - y);
    assert x * (z - y) == x * z - x * y;
  }

  lemma BetterRankWins(amount: int, cs: seq<Claimant>, s: Share, t: Share)
    requires Apportionable(amount, cs) && s in Shares(amount, cs) && t in Shares(amount, cs)
    requires RanksBefore(s, t) && t.claimant.id in Winners(amount, Shares(amount, cs))
    ensures s.claimant.id in Winners(amount, Shares(amount, cs))
  {
    hide Ranked, Winners, Leftover, Sum, Map, Sort, Less, BpsTotal, Shares, Permutation;
    var k := PlaceOf(amount, cs, s);
    var l := PlaceOf(amount, cs, t);
    RankingFacts(amount, cs);
    RanksBeforeIsWeakOrder();
    assert k != l;
    WinnersAreFirst(amount, cs, k);
    WinnersAreFirst(amount, cs, l);
  }

  /** The spare units go by remainder, larger ones first, and among equal remainders by id, smaller ones first. */
  lemma BonusesFollowRanking(amount: int, cs: seq<Claimant>, i: nat, j: nat)
    requires Apportionable(amount, cs) && i < |cs| && j < |cs|
    requires var r, q := amount * cs[i].bps % 10_000, amount * cs[j].bps % 10_000; r > q || (r == q && Less(cs[i].id, cs[j].id))
    ensures Amounts(amount, cs)[j] == amount * cs[j].bps / 10_000 + 1 ==> Amounts(amount, cs)[i] == amount * cs[i].bps / 10_000 + 1
  {
    var s, t := Shares(amount, cs)[i], Shares(amount, cs)[j];
    assert s in Shares(amount, cs) && t in Shares(amount, cs) && RanksBefore(s, t);
    if t.claimant.id in Winners(amount, Shares(amount, cs)) {
      BetterRankWins(amount, cs, s, t);
    }
    hide Winners, Apportionable, Less;
  }

  lemma MoreBpsRanksBetter(amount: int, more: Claimant, less: Claimant)
    requires amount >= 0 && more.bps > less.bps >= 0
    ensures var s, t := ShareOf(amount, more), ShareOf(amount, less);
            s.floorShare > t.floorShare || (s.floorShare == t.floorShare && (t.remainder == 0 || RanksBefore(s, t)))
  {
    MulMonotone(amount, less.bps, more.bps);
    if amount == 0 {
      assert amount * less.bps == 0;
    } else {
      MulAtLeast(amount, more.bps - less.bps);
      assert amount * (more.bps - less.bps) == amount * more.bps - amount * less.bps;
    }
  }

  /** Within one split more basis points never get less, and equal basis points differ by at most one unit. */
  lemma AmountsFollowBps(amount: int, cs: seq<Claimant>, i: nat, j: nat)
    requires Apportionable(amount, cs) && i < |cs| && j < |cs|
    ensures cs[i].bps > cs[j].bps ==> Amounts(amount, cs)[i] >= Amounts(amount, cs)[j]
    ensures cs[i].bps == cs[j].bps ==> Abs(Amounts(amount, cs)[i] - Amounts(amount, cs)[j]) <= 1
  {
    var shares := Shares(amount, cs);
    var s, t := shares[i], shares[j];
    if cs[i].bps > cs[j].bps {
      MoreBpsRanksBetter(amount, cs[i], cs[j]);
      if t.claimant.id in Winners(amount, shares) {
        WinnersHaveRemainders(amount, cs, t);
        if RanksBefore(s, t) {
          BetterRankWins(amount, cs, s, t);
        }
      }
    }
  }
}
