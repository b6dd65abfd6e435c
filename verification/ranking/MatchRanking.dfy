/** Ranking eligible capacities against one opportunity: by total, then by capacity id. */
module MatchRanking {
  import opened Sequences
  import opened Sorting
  import opened Text
  import opened Rankings
  import opened MatchScoring

  datatype Scored = Scored(capacityId: Text, breakdown: Breakdown)

  datatype RankedMatch = RankedMatch(capacityId: Text, rank: nat, breakdown: Breakdown, tiedWith: seq<Text>)

  function ScoreCapacity(o: Opportunity, risk: RiskProfile, c: Capacity): Scored {
    Scored(c.id, ScoreMatch(o, c, risk))
  }

  function ScoreAll(o: Opportunity, risk: RiskProfile, cs: seq<Capacity>): (scored: seq<Scored>)
    ensures |scored| == |cs|
  {
    Map(cs, c => ScoreCapacity(o, risk, c))
  }

  predicate Before(a: Scored, b: Scored) {
    if a.breakdown.total != b.breakdown.total then a.breakdown.total > b.breakdown.total
    else Less(a.capacityId, b.capacityId)
  }

  predicate Tied(a: Scored, b: Scored) {
    a.capacityId != b.capacityId && a.breakdown.total == b.breakdown.total
  }

  function Comparator(): (Scored, Scored) -> bool {
    (a, b) => Before(a, b)
  }

  function Order(scored: seq<Scored>): (sorted: seq<Scored>)
    ensures |sorted| == |scored|
  {
    Sort(scored, Comparator())
  }

  function TiedWith(sorted: seq<Scored>, s: Scored): seq<Text> {
    Map(Filter(sorted, d => Tied(d, s)), (d: Scored) => d.capacityId)
  }

  function RankMatches(o: Opportunity, eligible: seq<Capacity>, risk: RiskProfile): (ranked: seq<RankedMatch>)
    ensures |ranked| == |eligible|
  {
    var sorted := Order(ScoreAll(o, risk, eligible));
    seq(|sorted|, i requires 0 <= i < |sorted| =>
      RankedMatch(sorted[i].capacityId, i + 1, sorted[i].breakdown, TiedWith(sorted, sorted[i])))
  }

  // ----- properties -----

  ghost predicate DistinctIds(cs: seq<Capacity>) {
    forall i, j :: 0 <= i < j < |cs| ==> cs[i].id != cs[j].id
  }

  lemma BeforeIsWeakOrder()
    ensures WeakOrder(Comparator())
  {
    var before := Comparator();
    forall a, b | before(a, b) ensures !before(b, a) {
      if a.breakdown.total == b.breakdown.total {
        LessIsAsymmetric(a.capacityId, b.capacityId);
      }
    }
    forall a, b, c | before(a, c) ensures before(a, b) || before(b, c) {
      if a.breakdown.total == b.breakdown.total == c.breakdown.total {
        LessSplits(a.capacityId, b.capacityId, c.capacityId);
      }
    }
  }

  /** Distinct capacities have distinct scored entries, of which no two compare equal. */
  lemma NoTwoMatchesTie(o: Opportunity, risk: RiskProfile, cs: seq<Capacity>)
    requires DistinctIds(cs)
    ensures Distinct(ScoreAll(o, risk, cs)) && NoTies(ScoreAll(o, risk, cs), Comparator())
    ensures forall a, b :: a in ScoreAll(o, risk, cs) && b in ScoreAll(o, risk, cs) && a.capacityId == b.capacityId ==> a == b
  {
    hide ScoreMatch, Map;
    var s := ScoreAll(o, risk, cs);
    forall i, j | 0 <= i < j < |s| ensures s[i].capacityId != s[j].capacityId {
      assert s[i].capacityId == cs[i].id && s[j].capacityId == cs[j].id;
    }
    forall a, b | a in s && b in s && !Before(a, b) && !Before(b, a) ensures a == b {
      LessIsTotal(a.capacityId, b.capacityId);
      var i :| 0 <= i < |s| && s[i] == a;
      var j :| 0 <= j < |s| && s[j] == b;
    }
  }

  /** The ranking does not depend on the order the capacities are passed in. */
  lemma RankingIgnoresOrder(o: Opportunity, risk: RiskProfile, cs: seq<Capacity>, others: seq<Capacity>)
    requires DistinctIds(cs) && Permutation(cs, others)
    ensures RankMatches(o, cs, risk) == RankMatches(o, others, risk)
  {
    BeforeIsWeakOrder();
    NoTwoMatchesTie(o, risk, cs);
    MapPermutation(cs, others, c => ScoreCapacity(o, risk, c));
    SortPermutation(ScoreAll(o, risk, cs), ScoreAll(o, risk, others), Comparator());
  }

  /** What an entry says without reference to any sorting. */
  ghost predicate Describes(scored: seq<Scored>, entry: RankedMatch, c: Scored) {
    && c in scored && entry.capacityId == c.capacityId && entry.breakdown == c.breakdown
    && entry.rank == 1 + Count(scored, d => Before(d, c))
    && forall d :: d in scored ==> (d.capacityId in entry.tiedWith <==> Tied(c, d))
  }

  lemma TiesAreListed(o: Opportunity, risk: RiskProfile, cs: seq<Capacity>, k: nat, d: Scored)
    requires DistinctIds(cs) && k < |cs| && d in ScoreAll(o, risk, cs)
    ensures var s := Order(ScoreAll(o, risk, cs)); d.capacityId in TiedWith(s, s[k]) <==> Tied(s[k], d)
  {
    hide ScoreAll, Sort;
    var s := Order(ScoreAll(o, risk, cs));
    BeforeIsWeakOrder();
    NoTwoMatchesTie(o, risk, cs);
    SortIsSorted(ScoreAll(o, risk, cs), Comparator());
    SameElements(s, ScoreAll(o, risk, cs));
    var j :| 0 <= j < |s| && s[j] == d;
    ListedIffChosen(s, d => Tied(d, s[k]), (d: Scored) => d.capacityId, j);
  }

  /** Every entry describes one scored capacity: ranked one behind the number of better ones, tied with exactly its equals. */
  lemma EntriesDescribeMatches(o: Opportunity, risk: RiskProfile, cs: seq<Capacity>, k: nat)
    requires DistinctIds(cs) && k < |cs|
    ensures Describes(ScoreAll(o, risk, cs), RankMatches(o, cs, risk)[k], Order(ScoreAll(o, risk, cs))[k])
  {
    hide Sort, Tied, TiedWith, Before, Count, WeakOrder, Sorted, NoTies, ScoreMatch, Map;
    var scored := ScoreAll(o, risk, cs);
    var c := Order(scored)[k];
    BeforeIsWeakOrder();
    NoTwoMatchesTie(o, risk, cs);
    SortIsSorted(scored, Comparator());
    SameElements(Order(scored), scored);
    PlaceIsCount(scored, Comparator(), k, d => Before(d, c));
    forall d | d in scored ensures d.capacityId in TiedWith(Order(scored), c) <==> Tied(c, d) {
      TiesAreListed(o, risk, cs, k, d);
    }
  }

  /** The place carrying a capacity's id holds that capacity's score. */
  lemma OwnPlace(o: Opportunity, risk: RiskProfile, cs: seq<Capacity>, c: Capacity, i: nat)
    requires DistinctIds(cs) && c in cs && i < |cs| && RankMatches(o, cs, risk)[i].capacityId == c.id
    ensures Order(ScoreAll(o, risk, cs))[i] == ScoreCapacity(o, risk, c)
  {
    hide ScoreMatch, Sort, Map, TiedWith;
    var scored := ScoreAll(o, risk, cs);
    BeforeIsWeakOrder();
    NoTwoMatchesTie(o, risk, cs);
    SortIsSorted(scored, Comparator());
    SameElements(Order(scored), scored);
    var k :| 0 <= k < |cs| && cs[k] == c;
    assert scored[k] == ScoreCapacity(o, risk, c);
    assert Order(scored)[i] in scored;
  }

  /** Entries descend by total; among equal totals the smaller id comes first. */
  lemma RankingIsSorted(o: Opportunity, risk: RiskProfile, cs: seq<Capacity>, i: nat, j: nat)
    requires DistinctIds(cs) && i < j < |cs|
    ensures var e, f := RankMatches(o, cs, risk)[i], RankMatches(o, cs, risk)[j];
      e.breakdown.total > f.breakdown.total || (e.breakdown.total == f.breakdown.total && Less(e.capacityId, f.capacityId))
  {
    hide ScoreAll, Sort, TiedWith;
    BeforeIsWeakOrder();
    NoTwoMatchesTie(o, risk, cs);
    EarlierIsBefore(ScoreAll(o, risk, cs), Comparator(), i, j);
  }

  /** Two capacities keep their relative order whatever other capacities are added or removed. */
  lemma OthersNeverSwap(
      o: Opportunity, risk: RiskProfile, cs: seq<Capacity>, ds: seq<Capacity>, c: Capacity, d: Capacity, i: nat, j: nat, k: nat, l: nat)
    requires DistinctIds(cs) && DistinctIds(ds) && c in cs && c in ds && d in cs && d in ds
    requires i < |cs| && RankMatches(o, cs, risk)[i].capacityId == c.id && j < |cs| && RankMatches(o, cs, risk)[j].capacityId == d.id
    requires k < |ds| && RankMatches(o, ds, risk)[k].capacityId == c.id && l < |ds| && RankMatches(o, ds, risk)[l].capacityId == d.id
    ensures RankMatches(o, cs, risk)[i].rank < RankMatches(o, cs, risk)[j].rank
      <==> RankMatches(o, ds, risk)[k].rank < RankMatches(o, ds, risk)[l].rank
  {
    hide Sort, TiedWith, ScoreAll;
    BeforeIsWeakOrder();
    NoTwoMatchesTie(o, risk, cs);
    NoTwoMatchesTie(o, risk, ds);
    OwnPlace(o, risk, cs, c, i);
    OwnPlace(o, risk, cs, d, j);
    OwnPlace(o, risk, ds, c, k);
    OwnPlace(o, risk, ds, d, l);
    OthersDoNotSwap(ScoreAll(o, risk, cs), ScoreAll(o, risk, ds), Comparator(), i, j, k, l);
  }

  /** A capacity that improves, with everything else unchanged, is not ranked worse than before. */
  lemma ImprovementNeverWorsensRank(o: Opportunity, risk: RiskProfile, others: seq<Capacity>, a: Capacity, b: Capacity, i: nat, j: nat)
    requires Improves(a, b) && o.movable30dMinor >= 0
    requires DistinctIds(others + [a]) && DistinctIds(others + [b])
    requires i <= |others| && RankMatches(o, others + [a], risk)[i].capacityId == a.id
    requires j <= |others| && RankMatches(o, others + [b], risk)[j].capacityId == b.id
    ensures RankMatches(o, others + [b], risk)[j].rank <= RankMatches(o, others + [a], risk)[i].rank
  {
    hide ScoreMatch, Sort, TiedWith, Map, Before, WeakOrder, NoTies, Improves;
    var f := c => ScoreCapacity(o, risk, c);
    MapAppend(others, a, f);
    MapAppend(others, b, f);
    OwnPlace(o, risk, others + [a], a, i);
    OwnPlace(o, risk, others + [b], b, j);
    BeforeIsWeakOrder();
    NoTwoMatchesTie(o, risk, others + [a]);
    NoTwoMatchesTie(o, risk, others + [b]);
    forall y | Before(y, f(b)) ensures Before(y, f(a)) {
      BeatenByNoMore(o, risk, a, b, y);
    }
    ImprovementKeepsPlace(Map(others, f), f(a), f(b), Comparator(), i, j);
  }

  lemma BeatenByNoMore(o: Opportunity, risk: RiskProfile, a: Capacity, b: Capacity, y: Scored)
    requires Improves(a, b) && o.movable30dMinor >= 0 && Before(y, ScoreCapacity(o, risk, b))
    ensures Before(y, ScoreCapacity(o, risk, a))
  {
    ImprovementNeverLowersTotal(o, a, b, risk);
    hide ScoreMatch;
  }

  /** An entry carries its own capacity's breakdown and rank, and lists as tied exactly the others with the same total. */
  lemma RankedByFields(o: Opportunity, risk: RiskProfile, cs: seq<Capacity>, c: Capacity, d: Capacity, i: nat)
    requires DistinctIds(cs) && c in cs && d in cs && i < |cs| && RankMatches(o, cs, risk)[i].capacityId == c.id
    ensures var e := RankMatches(o, cs, risk)[i];
            && e.rank == i + 1 && e.breakdown == ScoreMatch(o, c, risk)
            && (d.id in e.tiedWith <==> d.id != c.id && ScoreMatch(o, d, risk).total == ScoreMatch(o, c, risk).total)
  {
    OwnPlace(o, risk, cs, c, i);
    var k :| 0 <= k < |cs| && cs[k] == d;
    assert ScoreAll(o, risk, cs)[k] == ScoreCapacity(o, risk, d);
    TiesAreListed(o, risk, cs, i, ScoreCapacity(o, risk, d));
    hide ScoreMatch, Sort, Map, TiedWith;
  }
}
