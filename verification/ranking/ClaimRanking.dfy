/** Ranking competing claims by total, then by instant of submission, then by id. */
module ClaimRanking {
  import opened Results
  import opened Sequences
  import opened Sorting
  import opened Text
  import opened Rankings

  /** Date.parse: an instant, or None where the source sees NaN. */
  type DateParser = Text -> Option<int>

  datatype Claim = Claim(claimId: Text, total: real, submittedAt: Text)

  datatype RankEntry = RankEntry(claimId: Text, rank: nat, total: real, tiedWith: seq<Text>)

  datatype RankingError = UnparseableSubmission(claimId: Text)

  function Instant(parse: DateParser, c: Claim): int {
    if parse(c.submittedAt).Some? then parse(c.submittedAt).value else 0
  }

  predicate Before(parse: DateParser, a: Claim, b: Claim) {
    if a.total != b.total then a.total > b.total
    else if Instant(parse, a) != Instant(parse, b) then Instant(parse, a) < Instant(parse, b)
    else Less(a.claimId, b.claimId)
  }

  predicate Tied(parse: DateParser, a: Claim, b: Claim) {
    a.claimId != b.claimId && a.total == b.total && Instant(parse, a) == Instant(parse, b)
  }

  function Comparator(parse: DateParser): (Claim, Claim) -> bool {
    (a, b) => Before(parse, a, b)
  }

  function Order(parse: DateParser, claims: seq<Claim>): (sorted: seq<Claim>)
    ensures |sorted| == |claims|
  {
    Sort(claims, Comparator(parse))
  }

  function TiedWith(parse: DateParser, sorted: seq<Claim>, c: Claim): seq<Text> {
    Map(Filter(sorted, d => Tied(parse, d, c)), (d: Claim) => d.claimId)
  }

  function FirstUnparseable(parse: DateParser, claims: seq<Claim>): (bad: Option<Text>)
    ensures bad == None <==> forall i :: 0 <= i < |claims| ==> parse(claims[i].submittedAt).Some?
  {
    if claims == [] then None
    else
      var first := FirstUnparseable(parse, claims[..|claims| - 1]);
      if first != None then first
      else if parse(claims[|claims| - 1].submittedAt) == None then Some(claims[|claims| - 1].claimId)
      else None
  }

  function RankClaims(parse: DateParser, claims: seq<Claim>): (r: Result<seq<RankEntry>, RankingError>)
    ensures r.Success? ==> |r.value| == |claims|
  {
    match FirstUnparseable(parse, claims)
    case Some(claimId) => Failure(UnparseableSubmission(claimId))
    case None =>
      var sorted := Order(parse, claims);
      Success(seq(|sorted|, i requires 0 <= i < |sorted| =>
        RankEntry(sorted[i].claimId, i + 1, sorted[i].total, TiedWith(parse, sorted, sorted[i]))))
  }

  // ----- properties -----

  ghost predicate DistinctIds(claims: seq<Claim>) {
    forall i, j :: 0 <= i < j < |claims| ==> claims[i].claimId != claims[j].claimId
  }

  lemma BeforeIsWeakOrder(parse: DateParser)
    ensures WeakOrder(Comparator(parse))
  {
    var before := Comparator(parse);
    forall a, b | before(a, b) ensures !before(b, a) {
      if a.total == b.total && Instant(parse, a) == Instant(parse, b) {
        LessIsAsymmetric(a.claimId, b.claimId);
      }
    }
    forall a, b, c | before(a, c) ensures before(a, b) || before(b, c) {
      if a.total == c.total == b.total && Instant(parse, a) == Instant(parse, c) == Instant(parse, b) {
        LessSplits(a.claimId, b.claimId, c.claimId);
      }
    }
  }

  lemma NoTwoClaimsTie(parse: DateParser, claims: seq<Claim>)
    requires DistinctIds(claims)
    ensures NoTies(claims, Comparator(parse)) && Distinct(claims)
  {
    forall a, b | a in claims && b in claims && !Before(parse, a, b) && !Before(parse, b, a) ensures a == b {
      LessIsTotal(a.claimId, b.claimId);
      var i :| 0 <= i < |claims| && claims[i] == a;
      var j :| 0 <= j < |claims| && claims[j] == b;
    }
  }

  /** The ranking of claims with distinct ids does not depend on the order they are passed in. */
  lemma RankingIgnoresOrder(parse: DateParser, claims: seq<Claim>, others: seq<Claim>)
    requires DistinctIds(claims) && Permutation(claims, others)
    ensures RankClaims(parse, claims).Success? <==> RankClaims(parse, others).Success?
    ensures RankClaims(parse, claims).Success? ==> RankClaims(parse, claims) == RankClaims(parse, others)
  {
    BeforeIsWeakOrder(parse);
    NoTwoClaimsTie(parse, claims);
    SortPermutation(claims, others, Comparator(parse));
    StillParseable(parse, claims, others);
    StillParseable(parse, others, claims);
  }

  lemma StillParseable(parse: DateParser, claims: seq<Claim>, others: seq<Claim>)
    requires Permutation(claims, others)
    ensures FirstUnparseable(parse, claims) == None ==> FirstUnparseable(parse, others) == None
  {
    SameElements(claims, others);
    if FirstUnparseable(parse, claims) == None {
      forall i | 0 <= i < |others| ensures parse(others[i].submittedAt).Some? {
        assert others[i] in claims;
      }
    }
  }

  lemma SortedIdsDistinct(parse: DateParser, claims: seq<Claim>, i: nat, j: nat)
    requires DistinctIds(claims) && i < |claims| && j < |claims| && i != j
    ensures Permutation(Order(parse, claims), claims)
    ensures Order(parse, claims)[i].claimId != Order(parse, claims)[j].claimId
  {
    var s := Order(parse, claims);
    BeforeIsWeakOrder(parse);
    NoTwoClaimsTie(parse, claims);
    SortIsSorted(claims, Comparator(parse));
    SameElements(s, claims);
    DistinctPermutation(s, claims);
    assert s[i] in claims && s[j] in claims && s[i] != s[j];
  }

  /** Entries come in the order the source documents, ranked 1, 2, 3, ... */
  lemma RankingIsSorted(parse: DateParser, claims: seq<Claim>, i: nat, j: nat)
    requires DistinctIds(claims) && i < j < |claims|
    ensures var s := Order(parse, claims);
            && Permutation(s, claims) && s[i].claimId != s[j].claimId
            && (s[i].total > s[j].total
                || (s[i].total == s[j].total && Instant(parse, s[i]) < Instant(parse, s[j]))
                || (Tied(parse, s[i], s[j]) && Less(s[i].claimId, s[j].claimId)))
  {
    BeforeIsWeakOrder(parse);
    NoTwoClaimsTie(parse, claims);
    EarlierIsBefore(claims, Comparator(parse), i, j);
    SortedIdsDistinct(parse, claims, i, j);
  }

  /** Being tied is mutual, ties are listed exactly, and everything ranked between two tied claims is tied with both. */
  lemma TiesAreMutualAndConsecutive(parse: DateParser, claims: seq<Claim>, i: nat, j: nat, k: nat)
    requires DistinctIds(claims)
    requires i < j < |claims|
    ensures var s := Order(parse, claims);
            && (s[j].claimId in TiedWith(parse, s, s[i]) <==> Tied(parse, s[i], s[j]))
            && (s[i].claimId in TiedWith(parse, s, s[j]) <==> s[j].claimId in TiedWith(parse, s, s[i]))
            && (Tied(parse, s[i], s[j]) && i < k < j ==> Tied(parse, s[i], s[k]) && Tied(parse, s[k], s[j]))
  {
    var s := Order(parse, claims);
    ListedIffTied(parse, claims, i, j);
    ListedIffTied(parse, claims, j, i);
    if Tied(parse, s[i], s[j]) && i < k < j {
      RankingIsSorted(parse, claims, i, k);
      RankingIsSorted(parse, claims, k, j);
    }
  }

  lemma ListedIffTied(parse: DateParser, claims: seq<Claim>, i: nat, j: nat)
    requires DistinctIds(claims) && i < |claims| && j < |claims|
    ensures var s := Order(parse, claims); s[j].claimId in TiedWith(parse, s, s[i]) <==> Tied(parse, s[i], s[j])
  {
    var s := Order(parse, claims);
    BeforeIsWeakOrder(parse);
    SortIsSorted(claims, Comparator(parse));
    SameElements(s, claims);
    ListedIffChosen(s, d => Tied(parse, d, s[i]), (d: Claim) => d.claimId, j);
  }

  /**
   What an entry says, without reference to any sorting: the claim with that
   id is ranked one behind the number of claims that come before it.
   */
  ghost predicate Describes(parse: DateParser, claims: seq<Claim>, entry: RankEntry, c: Claim) {
    && c in claims && entry.claimId == c.claimId && entry.total == c.total
    && entry.rank == 1 + Count(claims, d => Before(parse, d, c))
    && forall d :: d in claims ==> (d.claimId in entry.tiedWith <==> Tied(parse, c, d))
  }

  lemma TiesAreListed(parse: DateParser, claims: seq<Claim>, k: nat, d: Claim)
    requires DistinctIds(claims) && k < |claims| && d in claims
    ensures var s := Order(parse, claims); d.claimId in TiedWith(parse, s, s[k]) <==> Tied(parse, s[k], d)
  {
    BeforeIsWeakOrder(parse);
    SortIsSorted(claims, Comparator(parse));
    SameElements(Order(parse, claims), claims);
    var j :| 0 <= j < |claims| && Order(parse, claims)[j] == d;
    ListedIffTied(parse, claims, k, j);
  }

  lemma EntriesDescribeClaims(parse: DateParser, claims: seq<Claim>, k: nat)
    requires DistinctIds(claims) && RankClaims(parse, claims).Success? && k < |claims|
    ensures Describes(parse, claims, RankClaims(parse, claims).value[k], Order(parse, claims)[k])
  {
    hide Sort, Tied, TiedWith, Before, Instant, Count, FirstUnparseable, WeakOrder, Sorted, NoTies;
    var c := Order(parse, claims)[k];
    BeforeIsWeakOrder(parse);
    NoTwoClaimsTie(parse, claims);
    SortIsSorted(claims, Comparator(parse));
    SameElements(Order(parse, claims), claims);
    PlaceIsCount(claims, Comparator(parse), k, d => Before(parse, d, c));
    forall d | d in claims ensures d.claimId in TiedWith(parse, Order(parse, claims), c) <==> Tied(parse, c, d) {
      TiesAreListed(parse, claims, k, d);
    }
  }

  // ----- the ranking over the fields of claims -----

  /** The error names the first claim in the list whose submission cannot be parsed. */
  lemma {:induction false} FirstUnparseableIsFirst(parse: DateParser, claims: seq<Claim>)
    ensures FirstUnparseable(parse, claims).Some? ==>
      exists k :: 0 <= k < |claims| && parse(claims[k].submittedAt) == None
                  && claims[k].claimId == FirstUnparseable(parse, claims).value
                  && forall i :: 0 <= i < k ==> parse(claims[i].submittedAt).Some?
  {
    if claims != [] {
      var n := |claims| - 1;
      FirstUnparseableIsFirst(parse, claims[..n]);
      if FirstUnparseable(parse, claims[..n]) == None {
        assert forall i :: 0 <= i < n ==> claims[..n][i] == claims[i];
        if parse(claims[n].submittedAt) == None {
          assert claims[n].claimId == FirstUnparseable(parse, claims).value;
        }
      } else {
        var k :| 0 <= k < n && parse(claims[..n][k].submittedAt) == None
                 && claims[..n][k].claimId == FirstUnparseable(parse, claims[..n]).value
                 && forall i :: 0 <= i < k ==> parse(claims[..n][i].submittedAt).Some?;
        assert claims[..n][k] == claims[k] && forall i :: 0 <= i < k ==> claims[..n][i] == claims[i];
      }
    }
  }

  /** Ranking fails just when some submission cannot be parsed, and then names the first such claim. */
  lemma RankingFailsIff(parse: DateParser, claims: seq<Claim>)
    ensures RankClaims(parse, claims).Failure? <==> exists k :: 0 <= k < |claims| && parse(claims[k].submittedAt) == None
    ensures RankClaims(parse, claims).Failure? ==>
      exists k :: 0 <= k < |claims| && parse(claims[k].submittedAt) == None
                  && RankClaims(parse, claims).error == UnparseableSubmission(claims[k].claimId)
                  && forall i :: 0 <= i < k ==> parse(claims[i].submittedAt).Some?
  {
    FirstUnparseableIsFirst(parse, claims);
  }

  /**
   The entry at place i has rank i + 1 and its claim's total, and stands before the one at place j for one of the three
   documented reasons; the two are listed as tied just when total and instant agree.
   */
  lemma RankedByFields(parse: DateParser, claims: seq<Claim>, a: Claim, b: Claim, i: nat, j: nat)
    requires DistinctIds(claims) && RankClaims(parse, claims).Success? && a in claims && b in claims && i < j < |claims|
    requires RankClaims(parse, claims).value[i].claimId == a.claimId && RankClaims(parse, claims).value[j].claimId == b.claimId
    ensures var e, x, y := RankClaims(parse, claims).value[i], parse(a.submittedAt), parse(b.submittedAt);
            && e.rank == i + 1 && e.total == a.total && x.Some? && y.Some?
            && (a.total > b.total
                || (a.total == b.total && x.value < y.value)
                || (a.total == b.total && x.value == y.value && Less(a.claimId, b.claimId)))
            && (b.claimId in e.tiedWith <==> a.total == b.total && x.value == y.value)
  {
    RankingIsSorted(parse, claims, i, j);
    var s := Order(parse, claims);
    SameElements(s, claims);
    OneClaimPerId(claims, s[i], a);
    OneClaimPerId(claims, s[j], b);
    ListedIffTied(parse, claims, i, j);
    ParsesAll(parse, claims, a);
    ParsesAll(parse, claims, b);
    hide Sort, TiedWith, Permutation, FirstUnparseable;
  }

  lemma ParsesAll(parse: DateParser, claims: seq<Claim>, a: Claim)
    requires RankClaims(parse, claims).Success? && a in claims
    ensures parse(a.submittedAt).Some?
  {}

  lemma OneClaimPerId(claims: seq<Claim>, a: Claim, b: Claim)
    requires DistinctIds(claims) && a in claims && b in claims && a.claimId == b.claimId
    ensures a == b
  {
    var i :| 0 <= i < |claims| && claims[i] == a;
    var j :| 0 <= j < |claims| && claims[j] == b;
  }
}
