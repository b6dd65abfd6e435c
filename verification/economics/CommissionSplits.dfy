/** Splitting one revenue event's net amount across the components of a commission schedule. */
module CommissionSplits {
  import opened Results
  import opened Sequences
  import opened Text
  import opened Apportionment

  datatype ComponentType = PercentageBps | FixedAmount

  datatype Component = Component(
    componentId: Text,
    recipientOrgId: Text,
    componentType: ComponentType,
    bps: Option<int>,
    fixedAmountMinor: Option<int>,
    claimId: Option<Text>,
    priority: int)

  /** One distribution; its direction is always CREDIT. */
  datatype Entry = Entry(componentId: Text, recipientOrgId: Text, claimId: Option<Text>, amountMinor: int)

  datatype SplitError =
    | NegativeNet
    | NoComponents
    | DuplicateComponent
    | FixedAmountMissing
    | FixedAmountNegative
    | FixedExceedsNet
    | UnassignedRemainder
    | BpsMissingOrNegative
    | BpsTotalNotWhole
    | NegativeLeftoverPool
    | LeftoverPoolTooLarge
    | SumCheckFailed

  // ----- the specification -----

  function Fixed(cs: seq<Component>): seq<Component> {
    Filter(cs, (c: Component) => c.componentType == FixedAmount)
  }

  function Percentage(cs: seq<Component>): seq<Component> {
    Filter(cs, (c: Component) => c.componentType == PercentageBps)
  }

  function FixedMinor(c: Component): int {
    if c.fixedAmountMinor.Some? then c.fixedAmountMinor.value else 0
  }

  function AsClaimant(c: Component): Claimant {
    Claimant(c.componentId, if c.bps.Some? then c.bps.value else 0)
  }

  function Claimants(cs: seq<Component>): seq<Claimant> {
    Map(Percentage(cs), AsClaimant)
  }

  function FixedTotal(cs: seq<Component>): int {
    Sum(Map(Fixed(cs), FixedMinor))
  }

  function Ids(cs: seq<Component>): seq<Text> {
    Map(cs, (c: Component) => c.componentId)
  }

  function FixedOffence(c: Component): Option<SplitError> {
    match c.fixedAmountMinor
    case None => Some(FixedAmountMissing)
    case Some(amount) => if amount < 0 then Some(FixedAmountNegative) else None
  }

  predicate BadBps(c: Component) {
    c.bps.None? || c.bps.value < 0
  }

  /** The error of the first fixed component that has one. */
  function FirstFixedOffence(cs: seq<Component>): (offence: Option<SplitError>)
    ensures offence == None <==> forall i :: 0 <= i < |cs| ==> FixedOffence(cs[i]) == None
  {
    if cs == [] then None
    else
      var first := FirstFixedOffence(cs[..|cs| - 1]);
      if first != None then first else FixedOffence(cs[|cs| - 1])
  }

  /** The first of the source's validation errors that applies, in the order it checks them. */
  ghost function Problem(net: int, cs: seq<Component>): Option<SplitError> {
    if net < 0 then Some(NegativeNet)
    else if cs == [] then Some(NoComponents)
    else if !Distinct(Ids(cs)) then Some(DuplicateComponent)
    else if FirstFixedOffence(Fixed(cs)) != None then FirstFixedOffence(Fixed(cs))
    else if FixedTotal(cs) > net then Some(FixedExceedsNet)
    else if Percentage(cs) == [] then (if net - FixedTotal(cs) != 0 then Some(UnassignedRemainder) else None)
    else if exists c :: c in Percentage(cs) && BadBps(c) then Some(BpsMissingOrNegative)
    else if BpsTotal(Claimants(cs)) != WHOLE then Some(BpsTotalNotWhole)
    else None
  }

  function EntryOf(c: Component, amountMinor: int): Entry {
    Entry(c.componentId, c.recipientOrgId, c.claimId, amountMinor)
  }

  /** What a component gets: its fixed amount, or its share of what is left after the fixed amounts. */
  function AmountFor(remaining: int, winners: set<Text>, c: Component): int {
    match c.componentType
    case FixedAmount => FixedMinor(c)
    case PercentageBps => Awarded(winners, ShareOf(remaining, AsClaimant(c)))
  }

  function SplitWinners(net: int, cs: seq<Component>): set<Text> {
    var remaining := net - FixedTotal(cs);
    Winners(remaining, Shares(remaining, Claimants(cs)))
  }

  function EntriesOf(remaining: int, winners: set<Text>, cs: seq<Component>): (entries: seq<Entry>)
    ensures |entries| == |cs|
  {
    Map(cs, c => EntryOf(c, AmountFor(remaining, winners, c)))
  }

  /** Fixed components first, then percentage components, each in the order of the list. */
  function Split(net: int, cs: seq<Component>): seq<Entry> {
    var remaining, winners := net - FixedTotal(cs), SplitWinners(net, cs);
    EntriesOf(remaining, winners, Fixed(cs)) + EntriesOf(remaining, winners, Percentage(cs))
  }

  function EntryTotal(entries: seq<Entry>): int {
    Sum(Map(entries, (e: Entry) => e.amountMinor))
  }

  // ----- the method -----

  method CheckComponents(cs: seq<Component>) returns (duplicate: bool)
    ensures duplicate <==> !Distinct(Ids(cs))
  {
    var seen: set<Text> := {};
    for i := 0 to |cs|
      invariant seen == Elements(Ids(cs)[..i]) && Distinct(Ids(cs)[..i])
    {
      assert Ids(cs)[..i + 1] == Ids(cs)[..i] + [cs[i].componentId];
      if cs[i].componentId in seen {
        var j :| 0 <= j < i && Ids(cs)[j] == cs[i].componentId;
        return true;
      }
      seen := seen + {cs[i].componentId};
    }
    assert Ids(cs)[..|cs|] == Ids(cs);
    return false;
  }

  method AddFixed(cs: seq<Component>) returns (r: Result<int, SplitError>)
    ensures r.Failure? ==> FirstFixedOffence(cs) == Some(r.error)
    ensures r.Success? ==> FirstFixedOffence(cs) == None && r.value == Sum(Map(cs, FixedMinor))
  {
    NothingToAdd();
    hide Map, Sum, FirstFixedOffence;
    var fixedTotal := 0;
    for i := 0 to |cs|
      invariant FirstFixedOffence(cs[..i]) == None && fixedTotal == Sum(Map(cs[..i], FixedMinor))
    {
      var c := cs[i];
      assert cs[..i + 1] == cs[..i] + [c];
      FirstOffenceAppend(cs[..i], c);
      if c.fixedAmountMinor == None {
        FirstOffenceStays(cs, i + 1);
        return Failure(FixedAmountMissing);
      }
      if c.fixedAmountMinor.value < 0 {
        FirstOffenceStays(cs, i + 1);
        return Failure(FixedAmountNegative);
      }
      fixedTotal := fixedTotal + c.fixedAmountMinor.value;
      SumMapAppend(cs[..i], c, FixedMinor);
    }
    assert cs[..|cs|] == cs;
    return Success(fixedTotal);
  }

  lemma NothingToAdd()
    ensures FirstFixedOffence([]) == None && Sum(Map([], FixedMinor)) == 0 && BpsTotal(Map([], AsClaimant)) == 0
  {}

  lemma FirstOffenceAppend(cs: seq<Component>, c: Component)
    ensures FirstFixedOffence(cs + [c]) == if FirstFixedOffence(cs) != None then FirstFixedOffence(cs) else FixedOffence(c)
  {
    assert (cs + [c])[..|cs|] == cs;
  }

  lemma {:induction false} FirstOffenceStays(cs: seq<Component>, n: nat)
    requires n <= |cs| && FirstFixedOffence(cs[..n]) != None
    ensures FirstFixedOffence(cs) == FirstFixedOffence(cs[..n])
  {
    if n == |cs| {
      assert cs[..n] == cs;
    } else {
      var init := cs[..|cs| - 1];
      assert init[..n] == cs[..n];
      FirstOffenceStays(init, n);
    }
  }

  method AddBps(cs: seq<Component>) returns (r: Option<int>)
    ensures r == None <==> exists c :: c in cs && BadBps(c)
    ensures r.Some? ==> r.value == BpsTotal(Map(cs, AsClaimant))
  {
    NothingToAdd();
    hide Map, Sum, BpsTotal;
    var bpsTotal := 0;
    for i := 0 to |cs|
      invariant forall j :: 0 <= j < i ==> !BadBps(cs[j])
      invariant bpsTotal == BpsTotal(Map(cs[..i], AsClaimant))
    {
      if cs[i].bps == None || cs[i].bps.value < 0 {
        assert BadBps(cs[i]);
        return None;
      }
      bpsTotal := bpsTotal + cs[i].bps.value;
      assert cs[..i + 1] == cs[..i] + [cs[i]];
      BpsTotalAppend(cs[..i], cs[i]);
    }
    assert cs[..|cs|] == cs;
    return Some(bpsTotal);
  }

  lemma BpsTotalAppend(cs: seq<Component>, c: Component)
    ensures BpsTotal(Map(cs + [c], AsClaimant)) == BpsTotal(Map(cs, AsClaimant)) + AsClaimant(c).bps
  {
    hide Map, Sum;
    MapAppend(cs, c, AsClaimant);
    SumMapAppend(Map(cs, AsClaimant), AsClaimant(c), (c: Claimant) => c.bps);
  }

  method AddFloors(shares: seq<Share>) returns (flooredTotal: int)
    ensures flooredTotal == Sum(Floors(shares))
  {
    flooredTotal := 0;
    for i := 0 to |shares|
      invariant flooredTotal == Sum(Floors(shares[..i]))
    {
      assert Floors(shares[..i + 1]) == Floors(shares[..i]) + [shares[i].floorShare];
      SumAppend(Floors(shares[..i]), shares[i].floorShare);
      flooredTotal := flooredTotal + shares[i].floorShare;
    }
    assert shares[..|shares|] == shares;
  }

  function UnitsOf(bonusUnits: map<Text, int>, id: Text): int {
    if id in bonusUnits then bonusUnits[id] else 0
  }

  /** One unit each to the first of the ranking, until the pool or the ranking is exhausted. */
  method HandOut(ranked: seq<Share>, pool: nat) returns (bonusUnits: map<Text, int>, leftoverPool: nat)
    requires forall i, j :: 0 <= i < j < |ranked| ==> ranked[i].claimant.id != ranked[j].claimant.id
    ensures leftoverPool == if pool <= |ranked| then 0 else pool - |ranked|
    ensures bonusUnits.Keys == Apportionment.Ids(ranked[..pool - leftoverPool])
    ensures forall id :: id in bonusUnits ==> bonusUnits[id] == 1
  {
    leftoverPool := pool;
    bonusUnits := map[];
    var i := 0;
    while i < |ranked| && leftoverPool > 0
      invariant 0 <= i <= |ranked| && leftoverPool == pool - i
      invariant bonusUnits.Keys == Apportionment.Ids(ranked[..i])
      invariant forall id :: id in bonusUnits ==> bonusUnits[id] == 1
    {
      var id := ranked[i].claimant.id;
      assert ranked[..i + 1] == ranked[..i] + [ranked[i]];
      bonusUnits := bonusUnits[id := UnitsOf(bonusUnits, id) + 1];
      i, leftoverPool := i + 1, leftoverPool - 1;
    }
  }

  /** The leftover pool goes to the winners; neither internal guard around it can fire. */
  method DistributeLeftover(remaining: int, claimants: seq<Claimant>, shares: seq<Share>) returns (bonusUnits: map<Text, int>)
    requires Apportionable(remaining, claimants) && shares == Shares(remaining, claimants)
    ensures bonusUnits.Keys == Winners(remaining, shares)
    ensures forall id :: id in bonusUnits ==> bonusUnits[id] == 1
  {
    RankingFacts(remaining, claimants);
    assert claimants != [];
    WinnersAreFirst(remaining, claimants, 0);
    var flooredTotal := AddFloors(shares);
    var leftoverPool := remaining - flooredTotal;
    if leftoverPool < 0 {
      assert false;
    }
    bonusUnits, leftoverPool := HandOut(Ranked(shares), leftoverPool);
    if leftoverPool > 0 {
      assert false;
    }
  }

  method AddEntries(entries: seq<Entry>) returns (sumCheck: int)
    ensures sumCheck == EntryTotal(entries)
  {
    sumCheck := 0;
    for i := 0 to |entries|
      invariant sumCheck == EntryTotal(entries[..i])
    {
      assert entries[..i + 1] == entries[..i] + [entries[i]];
      SumAppend(Map(entries[..i], (e: Entry) => e.amountMinor), entries[i].amountMinor);
      sumCheck := sumCheck + entries[i].amountMinor;
    }
    assert entries[..|entries|] == entries;
  }

  /** The entries of the percentage components, pushed one by one in list order. */
  method PushPercentages(remaining: int, bpsComponents: seq<Component>, entries: seq<Entry>) returns (r: seq<Entry>)
    requires Apportionable(remaining, Map(bpsComponents, AsClaimant))
    requires forall i :: 0 <= i < |bpsComponents| ==> bpsComponents[i].componentType == PercentageBps
    ensures r == entries + EntriesOf(remaining, Winners(remaining, Shares(remaining, Map(bpsComponents, AsClaimant))), bpsComponents)
  {
    hide Apportionable, Winners, Map;
    var claimants := Map(bpsComponents, AsClaimant);
    var shares := Shares(remaining, claimants);
    ghost var winners := Winners(remaining, shares);
    var bonusUnits := DistributeLeftover(remaining, claimants, shares);
    r := entries;
    for i := 0 to |bpsComponents|
      invariant r == entries + EntriesOf(remaining, winners, bpsComponents[..i])
    {
      var c, s := bpsComponents[i], shares[i];
      var amountMinor := s.floorShare + UnitsOf(bonusUnits, s.claimant.id);
      assert amountMinor == AmountFor(remaining, winners, c);
      assert bpsComponents[..i + 1] == bpsComponents[..i] + [c];
      EntriesAppend(remaining, winners, bpsComponents[..i], c);
      r := r + [EntryOf(c, amountMinor)];
    }
    assert bpsComponents[..|bpsComponents|] == bpsComponents;
  }

  lemma EntriesAppend(remaining: int, winners: set<Text>, cs: seq<Component>, c: Component)
    ensures EntriesOf(remaining, winners, cs + [c]) == EntriesOf(remaining, winners, cs) + [EntryOf(c, AmountFor(remaining, winners, c))]
  {}

  // ----- what the split guarantees -----

  lemma {:induction false} DistinctIdsOfFilter(cs: seq<Component>)
    requires Distinct(Ids(cs))
    ensures DistinctIds(Claimants(cs))
  {
    hide Map, Filter;
    var ps, p := Percentage(cs), (c: Component) => c.componentType == PercentageBps;
    PercentageIdsDistinct(cs);
    forall i, j | 0 <= i < j < |ps| ensures Claimants(cs)[i].id != Claimants(cs)[j].id {
      assert Ids(ps)[i] != Ids(ps)[j];
    }
  }

  lemma {:induction false} PercentageIdsDistinct(cs: seq<Component>)
    requires Distinct(Ids(cs))
    ensures Distinct(Ids(Percentage(cs)))
  {
    hide Map;
    if cs != [] {
      var init, c := cs[..|cs| - 1], cs[|cs| - 1];
      assert cs == init + [c];
      assert Ids(cs) == Ids(init) + [c.componentId];
      DistinctAppend(Ids(init), c.componentId);
      PercentageIdsDistinct(init);
      var ps := Percentage(init);
      FilterAppend(init, c, (c: Component) => c.componentType == PercentageBps);
      if c.componentType == PercentageBps {
        assert Ids(ps + [c]) == Ids(ps) + [c.componentId];
        forall i | 0 <= i < |ps| ensures Ids(ps)[i] != c.componentId {
          var k :| 0 <= k < |init| && init[k] == ps[i];
          assert Ids(init)[k] == ps[i].componentId;
        }
        DistinctAppend(Ids(ps), c.componentId);
      } else {
        assert Percentage(cs) == ps;
      }
    }
  }

  lemma ValidIsApportionable(net: int, cs: seq<Component>)
    requires Problem(net, cs) == None
    ensures if Percentage(cs) == [] then net == FixedTotal(cs) else Apportionable(net - FixedTotal(cs), Claimants(cs))
  {
    if Percentage(cs) != [] {
      DistinctIdsOfFilter(cs);
      var ps := Percentage(cs);
      forall i | 0 <= i < |ps| ensures AsClaimant(ps[i]).bps >= 0 {
        assert ps[i] in ps;
      }
    }
  }

  lemma EntryTotalConcat(es: seq<Entry>, fs: seq<Entry>)
    ensures EntryTotal(es + fs) == EntryTotal(es) + EntryTotal(fs)
  {
    var amount := (e: Entry) => e.amountMinor;
    MapConcat(es, fs, amount);
    SumConcat(Map(es, amount), Map(fs, amount));
  }

  lemma FixedEntriesTotal(remaining: int, winners: set<Text>, cs: seq<Component>)
    requires forall i :: 0 <= i < |cs| ==> cs[i].componentType == FixedAmount
    ensures EntryTotal(EntriesOf(remaining, winners, cs)) == Sum(Map(cs, FixedMinor))
  {
    assert Map(EntriesOf(remaining, winners, cs), (e: Entry) => e.amountMinor) == Map(cs, FixedMinor);
  }

  lemma PercentageEntriesTotal(remaining: int, cs: seq<Component>)
    requires Apportionable(remaining, Map(cs, AsClaimant))
    requires forall i :: 0 <= i < |cs| ==> cs[i].componentType == PercentageBps
    ensures var claimants := Map(cs, AsClaimant);
            EntryTotal(EntriesOf(remaining, Winners(remaining, Shares(remaining, claimants)), cs)) == remaining
  {
    var claimants := Map(cs, AsClaimant);
    var entries := EntriesOf(remaining, Winners(remaining, Shares(remaining, claimants)), cs);
    assert Map(entries, (e: Entry) => e.amountMinor) == Amounts(remaining, claimants);
    AmountsAddUp(remaining, claimants);
  }

  lemma FixedOnlyFixed(cs: seq<Component>)
    ensures forall i :: 0 <= i < |Fixed(cs)| ==> Fixed(cs)[i].componentType == FixedAmount
    ensures forall i :: 0 <= i < |Percentage(cs)| ==> Percentage(cs)[i].componentType == PercentageBps
  {}

  lemma SplitTotal(net: int, cs: seq<Component>, remaining: int, percentageTotal: int)
    requires remaining == net - FixedTotal(cs)
    requires EntryTotal(EntriesOf(remaining, SplitWinners(net, cs), Percentage(cs))) == percentageTotal
    ensures EntryTotal(Split(net, cs)) == FixedTotal(cs) + percentageTotal
  {
    hide Map, Sum, Fixed, Percentage, SplitWinners, EntryTotal, EntriesOf;
    FixedOnlyFixed(cs);
    var winners := SplitWinners(net, cs);
    EntryTotalConcat(EntriesOf(remaining, winners, Fixed(cs)), EntriesOf(remaining, winners, Percentage(cs)));
    FixedEntriesTotal(remaining, winners, Fixed(cs));
  }

  /** Zero leakage: the entries of a valid split add up to exactly the net amount. */
  lemma SplitIsExact(net: int, cs: seq<Component>)
    requires Problem(net, cs) == None
    ensures EntryTotal(Split(net, cs)) == net
  {
    hide Problem, EntryTotal, Split, FixedTotal, Apportionable, Winners;
    var remaining := net - FixedTotal(cs);
    ValidIsApportionable(net, cs);
    if Percentage(cs) == [] {
      NoEntriesTotal(remaining, SplitWinners(net, cs));
      SplitTotal(net, cs, remaining, 0);
    } else {
      PercentageEntriesTotal(remaining, Percentage(cs));
      SplitTotal(net, cs, remaining, remaining);
    }
  }

  lemma NoEntriesTotal(remaining: int, winners: set<Text>)
    ensures EntryTotal(EntriesOf(remaining, winners, [])) == 0
  {}

  /** Fixed components come first and get exactly their amount; the percentage amounts are the apportionment of the rest. */
  lemma SplitAmounts(net: int, cs: seq<Component>, i: nat)
    requires i < |Fixed(cs)| + |Percentage(cs)|
    ensures |Split(net, cs)| == |Fixed(cs)| + |Percentage(cs)|
    ensures var f := |Fixed(cs)|;
            var e := Split(net, cs)[i];
            var c := if i < f then Fixed(cs)[i] else Percentage(cs)[i - f];
            && e.componentId == c.componentId && e.recipientOrgId == c.recipientOrgId && e.claimId == c.claimId
            && (i < f && c.fixedAmountMinor.Some? ==> e.amountMinor == c.fixedAmountMinor.value)
            && (i >= f ==> e.amountMinor == Amounts(net - FixedTotal(cs), Claimants(cs))[i - f])
  {
    FixedOnlyFixed(cs);
    hide FixedTotal, Fixed, Percentage, Winners;
  }

  /** Listing the components in another order is valid just when this order is, and permutes the same entries. */
  lemma SplitIgnoresOrder(net: int, cs: seq<Component>, ds: seq<Component>)
    requires Permutation(cs, ds) && Problem(net, cs) == None
    ensures Problem(net, ds) == None
    ensures Permutation(Split(net, cs), Split(net, ds))
  {
    hide Problem, FixedTotal, Winners, Fixed, Percentage, Claimants, Ids, BpsTotal, EntriesOf, Distinct, DistinctIds;
    PartsPermute(cs, ds);
    TotalsAgree(cs, ds);
    StillValid(net, cs, ds);
    DistinctIdsOfFilter(cs);
    var remaining := net - FixedTotal(cs);
    WinnersIgnoreOrder(remaining, Claimants(cs), Claimants(ds));
    SplitPermutes(remaining, SplitWinners(net, cs), Fixed(cs), Fixed(ds), Percentage(cs), Percentage(ds));
  }

  lemma PartsPermute(cs: seq<Component>, ds: seq<Component>)
    requires Permutation(cs, ds)
    ensures Permutation(Fixed(cs), Fixed(ds)) && Permutation(Percentage(cs), Percentage(ds))
    ensures Permutation(Claimants(cs), Claimants(ds))
  {
    FilterPermutation(cs, ds, (c: Component) => c.componentType == FixedAmount);
    FilterPermutation(cs, ds, (c: Component) => c.componentType == PercentageBps);
    MapPermutation(Percentage(cs), Percentage(ds), AsClaimant);
  }

  lemma TotalsAgree(cs: seq<Component>, ds: seq<Component>)
    requires Permutation(Fixed(cs), Fixed(ds)) && Permutation(Claimants(cs), Claimants(ds))
    ensures FixedTotal(cs) == FixedTotal(ds) && BpsTotal(Claimants(cs)) == BpsTotal(Claimants(ds))
  {
    hide Fixed, Claimants, Sum, Map;
    MapPermutation(Fixed(cs), Fixed(ds), FixedMinor);
    SumPermutation(Map(Fixed(cs), FixedMinor), Map(Fixed(ds), FixedMinor));
    var bps := (c: Claimant) => c.bps;
    MapPermutation(Claimants(cs), Claimants(ds), bps);
    SumPermutation(Map(Claimants(cs), bps), Map(Claimants(ds), bps));
  }

  lemma IdsStayDistinct(cs: seq<Component>, ds: seq<Component>)
    requires Permutation(cs, ds)
    ensures Distinct(Ids(cs)) <==> Distinct(Ids(ds))
  {
    var id := (c: Component) => c.componentId;
    MapPermutation(cs, ds, id);
    DistinctPermutation(Map(cs, id), Map(ds, id));
  }

  lemma NoOffenceStays(fs: seq<Component>, gs: seq<Component>)
    requires Permutation(fs, gs) && FirstFixedOffence(fs) == None
    ensures FirstFixedOffence(gs) == None
  {
    SameElements(fs, gs);
    forall i | 0 <= i < |gs| ensures FixedOffence(gs[i]) == None {
      assert gs[i] in fs;
    }
  }

  lemma StillValid(net: int, cs: seq<Component>, ds: seq<Component>)
    requires Permutation(cs, ds) && Permutation(Fixed(cs), Fixed(ds)) && Permutation(Percentage(cs), Percentage(ds))
    requires FixedTotal(cs) == FixedTotal(ds) && BpsTotal(Claimants(cs)) == BpsTotal(Claimants(ds))
    requires Problem(net, cs) == None
    ensures Problem(net, ds) == None && Distinct(Ids(cs))
  {
    hide FixedTotal, BpsTotal, Claimants, Fixed, Percentage, Ids, FirstFixedOffence, Distinct;
    SameElements(cs, ds);
    SameElements(Percentage(cs), Percentage(ds));
    IdsStayDistinct(cs, ds);
    NoOffenceStays(Fixed(cs), Fixed(ds));
  }

  lemma SplitPermutes(remaining: int, winners: set<Text>, f: seq<Component>, f': seq<Component>, p: seq<Component>, p': seq<Component>)
    requires Permutation(f, f') && Permutation(p, p')
    ensures Permutation(EntriesOf(remaining, winners, f) + EntriesOf(remaining, winners, p),
                        EntriesOf(remaining, winners, f') + EntriesOf(remaining, winners, p'))
  {
    var entry := c => EntryOf(c, AmountFor(remaining, winners, c));
    MapPermutation(f, f', entry);
    MapPermutation(p, p', entry);
  }

  // ----- the split over the fields of components and entries -----

  /** What the fixed components ask for together. */
  function FixedSum(cs: seq<Component>): int {
    Sum(Map(cs, (c: Component) => if c.componentType == FixedAmount && c.fixedAmountMinor.Some? then c.fixedAmountMinor.value else 0))
  }

  /** The basis points of the percentage components together. */
  function BpsSum(cs: seq<Component>): int {
    Sum(Map(cs, (c: Component) => if c.componentType == PercentageBps && c.bps.Some? then c.bps.value else 0))
  }

  lemma FixedTotalAppend(init: seq<Component>, c: Component)
    ensures FixedTotal(init + [c]) == FixedTotal(init) + (if c.componentType == FixedAmount then FixedMinor(c) else 0)
  {
    hide Map, Filter, Sum;
    FilterAppend(init, c, (c: Component) => c.componentType == FixedAmount);
    SumMapAppend(Fixed(init), c, FixedMinor);
    assert Fixed(init) + [] == Fixed(init);
  }

  lemma FixedSumAppend(init: seq<Component>, c: Component)
    ensures FixedSum(init + [c]) == FixedSum(init) + (if c.componentType == FixedAmount then FixedMinor(c) else 0)
  {
    hide Map, Sum;
    SumMapAppend(init, c, (c: Component) => if c.componentType == FixedAmount && c.fixedAmountMinor.Some? then c.fixedAmountMinor.value else 0);
  }

  lemma ClaimantsAppend(init: seq<Component>, c: Component)
    ensures BpsTotal(Claimants(init + [c])) == BpsTotal(Claimants(init)) + (if c.componentType == PercentageBps then AsClaimant(c).bps else 0)
  {
    hide Map, Filter, BpsTotal;
    FilterAppend(init, c, (c: Component) => c.componentType == PercentageBps);
    BpsTotalAppend(Percentage(init), c);
    assert Percentage(init) + [] == Percentage(init);
  }

  lemma BpsSumAppend(init: seq<Component>, c: Component)
    ensures BpsSum(init + [c]) == BpsSum(init) + (if c.componentType == PercentageBps then AsClaimant(c).bps else 0)
  {
    hide Map, Sum;
    SumMapAppend(init, c, (c: Component) => if c.componentType == PercentageBps && c.bps.Some? then c.bps.value else 0);
  }

  lemma NoSums()
    ensures FixedTotal([]) == FixedSum([]) == 0 && BpsTotal(Claimants([])) == BpsSum([]) == 0
  {}

  lemma {:induction false} SumsOverAll(cs: seq<Component>)
    ensures FixedTotal(cs) == FixedSum(cs) && BpsTotal(Claimants(cs)) == BpsSum(cs)
  {
    NoSums();
    hide FixedTotal, FixedSum, BpsTotal, BpsSum, Claimants;
    if cs != [] {
      var init, c := cs[..|cs| - 1], cs[|cs| - 1];
      assert cs == init + [c];
      SumsOverAll(init);
      FixedTotalAppend(init, c);
      FixedSumAppend(init, c);
      ClaimantsAppend(init, c);
      BpsSumAppend(init, c);
    }
  }

  ghost predicate HasPercentage(cs: seq<Component>) {
    exists c :: c in cs && c.componentType == PercentageBps
  }

  /** Which inputs pass validation. */
  lemma ValidMeans(net: int, cs: seq<Component>)
    ensures Problem(net, cs) == None <==>
      && net >= 0 && cs != []
      && (forall i, j :: 0 <= i < j < |cs| ==> cs[i].componentId != cs[j].componentId)
      && (forall c :: c in cs && c.componentType == FixedAmount ==> c.fixedAmountMinor.Some? && c.fixedAmountMinor.value >= 0)
      && (forall c :: c in cs && c.componentType == PercentageBps ==> c.bps.Some? && c.bps.value >= 0)
      && FixedSum(cs) <= net
      && (if HasPercentage(cs) then BpsSum(cs) == 10_000 else FixedSum(cs) == net)
  {
    SumsOverAll(cs);
    OffencesOverAll(cs);
    hide FixedTotal, FixedSum, BpsTotal, BpsSum, Fixed, Percentage, Claimants, FirstFixedOffence;
    forall i, j | 0 <= i < j < |cs| ensures Ids(cs)[i] != Ids(cs)[j] <==> cs[i].componentId != cs[j].componentId {
    }
  }

  lemma KeptByFilter<T>(xs: seq<T>, p: T -> bool, x: T)
    ensures x in Filter(xs, p) <==> x in xs && p(x)
  {
    FilterCounts(xs, p, x);
    assert x in Filter(xs, p) <==> x in multiset(Filter(xs, p));
    assert x in xs <==> x in multiset(xs);
  }

  lemma OffencesOverAll(cs: seq<Component>)
    ensures FirstFixedOffence(Fixed(cs)) == None <==>
      forall c :: c in cs && c.componentType == FixedAmount ==> c.fixedAmountMinor.Some? && c.fixedAmountMinor.value >= 0
    ensures Percentage(cs) == [] <==> !HasPercentage(cs)
    ensures (exists c :: c in Percentage(cs) && BadBps(c)) <==>
      !(forall c :: c in cs && c.componentType == PercentageBps ==> c.bps.Some? && c.bps.value >= 0)
  {
    forall c: Component
      ensures c in Fixed(cs) <==> c in cs && c.componentType == FixedAmount
      ensures c in Percentage(cs) <==> c in cs && c.componentType == PercentageBps
    {
      KeptByFilter(cs, (c: Component) => c.componentType == FixedAmount, c);
      KeptByFilter(cs, (c: Component) => c.componentType == PercentageBps, c);
    }
    hide Fixed, Percentage, FirstFixedOffence;
    if Percentage(cs) != [] {
      assert Percentage(cs)[0] in Percentage(cs);
    }
    assert forall i :: 0 <= i < |Fixed(cs)| ==> Fixed(cs)[i] in Fixed(cs);
  }

  function EntryFor(net: int, cs: seq<Component>, c: Component): Entry {
    EntryOf(c, AmountFor(net - FixedTotal(cs), SplitWinners(net, cs), c))
  }

  /** The split is the list of the components' entries, rearranged. */
  lemma SplitIsRearranged(net: int, cs: seq<Component>)
    ensures Permutation(Split(net, cs), Map(cs, c => EntryFor(net, cs, c)))
  {
    var remaining, winners := net - FixedTotal(cs), SplitWinners(net, cs);
    var entry := c => EntryFor(net, cs, c);
    PartitionPermutes(cs, (c: Component) => c.componentType == FixedAmount, (c: Component) => c.componentType == PercentageBps);
    MapPermutation(Fixed(cs) + Percentage(cs), cs, entry);
    MapConcat(Fixed(cs), Percentage(cs), entry);
    SameEntries(net, cs, Fixed(cs));
    SameEntries(net, cs, Percentage(cs));
    hide Fixed, Percentage, SplitWinners, FixedTotal, EntriesOf, Map, Permutation;
  }

  lemma SameEntries(net: int, cs: seq<Component>, part: seq<Component>)
    ensures EntriesOf(net - FixedTotal(cs), SplitWinners(net, cs), part) == Map(part, c => EntryFor(net, cs, c))
  {
    hide FixedTotal, SplitWinners, AmountFor;
  }

  /** The floor of the exact share, or the ceiling when that is not whole. */
  predicate SharesOf(remaining: int, bps: int, amountMinor: int) {
    var exact := remaining * bps;
    amountMinor == exact / 10_000 || (amountMinor == exact / 10_000 + 1 && exact % 10_000 != 0)
  }

  /** The amount is the one apportioned to the claimant with this identifier and these basis points. */
  ghost predicate Apportioned(remaining: int, claimants: seq<Claimant>, id: Text, bps: int, amountMinor: int) {
    exists k :: 0 <= k < |claimants| && claimants[k] == Claimant(id, bps) && amountMinor == Amounts(remaining, claimants)[k]
  }

  /** The entry credits the component's recipient, for its claim, with its fixed amount or its apportioned share of the rest. */
  ghost predicate Pays(net: int, cs: seq<Component>, e: Entry, c: Component) {
    && e.componentId == c.componentId && e.recipientOrgId == c.recipientOrgId && e.claimId == c.claimId
    && (c.componentType == FixedAmount ==> c.fixedAmountMinor == Some(e.amountMinor))
    && (c.componentType == PercentageBps ==>
      && c.bps.Some? && SharesOf(net - FixedSum(cs), c.bps.value, e.amountMinor)
      && Apportioned(net - FixedSum(cs), Claimants(cs), c.componentId, c.bps.value, e.amountMinor))
  }

  lemma PercentageIsShared(net: int, cs: seq<Component>, c: Component)
    requires Problem(net, cs) == None && c in cs && c.componentType == PercentageBps && c.bps.Some?
    ensures var remaining := net - FixedTotal(cs);
            var amountMinor := AmountFor(remaining, SplitWinners(net, cs), c);
            && SharesOf(remaining, c.bps.value, amountMinor)
            && Apportioned(remaining, Claimants(cs), c.componentId, c.bps.value, amountMinor)
  {
    hide *;
    var k := PlaceOfClaimant(cs, c);
    ValidIsApportionable(net, cs);
    WinnersOfSplit(net, cs);
    ClaimantAmount(net - FixedTotal(cs), Claimants(cs), k, c);
  }

  lemma WinnersOfSplit(net: int, cs: seq<Component>)
    ensures SplitWinners(net, cs) == Winners(net - FixedTotal(cs), Shares(net - FixedTotal(cs), Claimants(cs)))
  {}

  lemma PlaceOfClaimant(cs: seq<Component>, c: Component) returns (k: nat)
    requires c in cs && c.componentType == PercentageBps
    ensures Percentage(cs) != [] && k < |Claimants(cs)| && Claimants(cs)[k] == AsClaimant(c)
  {
    KeptByFilter(cs, (c: Component) => c.componentType == PercentageBps, c);
    hide Filter;
    k :| 0 <= k < |Percentage(cs)| && Percentage(cs)[k] == c;
  }

  lemma ClaimantAmount(remaining: int, claimants: seq<Claimant>, k: nat, c: Component)
    requires Apportionable(remaining, claimants) && k < |claimants| && claimants[k] == AsClaimant(c)
    requires c.componentType == PercentageBps && c.bps.Some?
    ensures var amountMinor := AmountFor(remaining, Winners(remaining, Shares(remaining, claimants)), c);
            && SharesOf(remaining, c.bps.value, amountMinor)
            && Apportioned(remaining, claimants, c.componentId, c.bps.value, amountMinor)
  {
    AmountIs(remaining, claimants, k, c);
    hide Winners, AmountFor, Amounts, Shares;
    AmountsMeetQuota(remaining, claimants, k);
    hide Apportionable;
  }

  lemma AmountIs(remaining: int, claimants: seq<Claimant>, k: nat, c: Component)
    requires k < |claimants| && claimants[k] == AsClaimant(c) && c.componentType == PercentageBps
    ensures |Amounts(remaining, claimants)| == |claimants|
    ensures Amounts(remaining, claimants)[k] == AmountFor(remaining, Winners(remaining, Shares(remaining, claimants)), c)
  {
    hide Winners;
  }

  lemma EntryPays(net: int, cs: seq<Component>, c: Component)
    requires Problem(net, cs) == None && c in cs
    ensures Pays(net, cs, EntryFor(net, cs, c), c)
  {
    ValidMeans(net, cs);
    SumsOverAll(cs);
    hide Problem, FixedTotal, FixedSum, BpsSum, SplitWinners, SharesOf;
    if c.componentType == PercentageBps {
      PercentageIsShared(net, cs, c);
    }
  }

  lemma EntryIdsPermute(net: int, cs: seq<Component>)
    ensures Permutation(Map(Split(net, cs), (e: Entry) => e.componentId), Ids(cs))
  {
    hide Split, Permutation;
    SplitIsRearranged(net, cs);
    var entries, id := Map(cs, c => EntryFor(net, cs, c)), (e: Entry) => e.componentId;
    assert Map(entries, id) == Ids(cs);
    MapPermutation(Split(net, cs), entries, id);
  }

  lemma EntryIdsDistinct(net: int, cs: seq<Component>)
    requires Distinct(Ids(cs))
    ensures forall i, j :: 0 <= i < j < |Split(net, cs)| ==> Split(net, cs)[i].componentId != Split(net, cs)[j].componentId
  {
    hide Split, Permutation;
    EntryIdsPermute(net, cs);
    var split, id := Split(net, cs), (e: Entry) => e.componentId;
    DistinctPermutation(Map(split, id), Ids(cs));
    forall i, j | 0 <= i < j < |split| ensures split[i].componentId != split[j].componentId {
      assert Map(split, id)[i] != Map(split, id)[j];
    }
  }

  /** Every component of a valid input has exactly one entry, which pays what the component says to whom it says. */
  lemma EachComponentIsPaid(net: int, cs: seq<Component>)
    requires Problem(net, cs) == None
    ensures |Split(net, cs)| == |cs|
    ensures forall c :: c in cs ==> exists e :: e in Split(net, cs) && Pays(net, cs, e, c)
    ensures forall i, j :: 0 <= i < j < |Split(net, cs)| ==> Split(net, cs)[i].componentId != Split(net, cs)[j].componentId
  {
    EntryIdsDistinct(net, cs);
    var entries := Map(cs, c => EntryFor(net, cs, c));
    SplitIsRearranged(net, cs);
    SameElements(Split(net, cs), entries);
    hide Split, EntryFor, Problem, Pays, Permutation, Map;
    forall c | c in cs ensures exists e :: e in Split(net, cs) && Pays(net, cs, e, c) {
      EntryPays(net, cs, c);
      var i :| 0 <= i < |cs| && cs[i] == c;
      assert entries[i] == EntryFor(net, cs, c) && entries[i] in entries;
    }
  }

  function CreditedTo(org: Text, entries: seq<Entry>): int {
    Sum(Map(Filter(entries, (e: Entry) => e.recipientOrgId == org), (e: Entry) => e.amountMinor))
  }

  lemma CreditAppend(org: Text, entries: seq<Entry>, e: Entry)
    ensures CreditedTo(org, entries + [e]) == CreditedTo(org, entries) + (if e.recipientOrgId == org then e.amountMinor else 0)
  {
    var kept := Filter(entries, (e: Entry) => e.recipientOrgId == org);
    FilterAppend(entries, e, (e: Entry) => e.recipientOrgId == org);
    SumMapAppend(kept, e, (e: Entry) => e.amountMinor);
    assert kept + [] == kept;
    hide Filter, Map, Sum;
  }

  /** An organisation is credited the amounts of the components that name it, and no others. */
  lemma OrganisationIsCredited(net: int, cs: seq<Component>, org: Text, amountOf: Text -> int)
    requires forall e :: e in Split(net, cs) ==> amountOf(e.componentId) == e.amountMinor
    ensures CreditedTo(org, Split(net, cs))
      == Sum(Map(cs, (c: Component) => if c.recipientOrgId == org then amountOf(c.componentId) else 0))
  {
    var entries := Map(cs, c => EntryFor(net, cs, c));
    SplitIsRearranged(net, cs);
    SameElements(Split(net, cs), entries);
    FilterPermutation(Split(net, cs), entries, (e: Entry) => e.recipientOrgId == org);
    var mine, ours := Filter(Split(net, cs), (e: Entry) => e.recipientOrgId == org), Filter(entries, (e: Entry) => e.recipientOrgId == org);
    MapPermutation(mine, ours, (e: Entry) => e.amountMinor);
    SumPermutation(Map(mine, (e: Entry) => e.amountMinor), Map(ours, (e: Entry) => e.amountMinor));
    forall i | 0 <= i < |cs| ensures amountOf(cs[i].componentId) == entries[i].amountMinor && entries[i].recipientOrgId == cs[i].recipientOrgId {
      assert entries[i] in Split(net, cs) && entries[i] == EntryFor(net, cs, cs[i]);
    }
    hide Split, EntryFor, Map, Filter, Sum;
    CreditByComponents(cs, entries, org, amountOf);
  }

  lemma {:induction false} CreditByComponents(cs: seq<Component>, entries: seq<Entry>, org: Text, amountOf: Text -> int)
    requires |entries| == |cs|
    requires forall i :: 0 <= i < |cs| ==>
      amountOf(cs[i].componentId) == entries[i].amountMinor && entries[i].recipientOrgId == cs[i].recipientOrgId
    ensures CreditedTo(org, entries) == Sum(Map(cs, (c: Component) => if c.recipientOrgId == org then amountOf(c.componentId) else 0))
  {
    var f := (c: Component) => if c.recipientOrgId == org then amountOf(c.componentId) else 0;
    if cs != [] {
      var n := |cs| - 1;
      assert cs == cs[..n] + [cs[n]] && entries == entries[..n] + [entries[n]];
      CreditByComponents(cs[..n], entries[..n], org, amountOf);
      CreditAppend(org, entries[..n], entries[n]);
      SumMapAppend(cs[..n], cs[n], f);
      hide CreditedTo, Map, Sum;
    }
  }

  method ComputeCommissionSplits(netDistributableMinor: int, components: seq<Component>) returns (r: Result<seq<Entry>, SplitError>)
    ensures r.Failure? ==> Problem(netDistributableMinor, components) == Some(r.error)
    ensures r.Success? ==> Problem(netDistributableMinor, components) == None && r.value == Split(netDistributableMinor, components)
  {
    hide EntryTotal, Apportionable, Winners, BpsTotal, FirstFixedOffence, Sum, Map, Filter, Distinct;
    var net := netDistributableMinor;
    if net < 0 {
      return Failure(NegativeNet);
    }
    if |components| == 0 {
      return Failure(NoComponents);
    }
    var duplicate := CheckComponents(components);
    if duplicate {
      return Failure(DuplicateComponent);
    }
    var fixedComponents, bpsComponents := Fixed(components), Percentage(components);
    var added := AddFixed(fixedComponents);
    if added.Failure? {
      return Failure(added.error);
    }
    var fixedTotal := added.value;
    if fixedTotal > net {
      return Failure(FixedExceedsNet);
    }
    var remaining := net - fixedTotal;
    var entries := Map(fixedComponents, c => EntryOf(c, FixedMinor(c)));
    FixedOnlyFixed(components);
    assert entries == EntriesOf(remaining, SplitWinners(net, components), fixedComponents);

    if |bpsComponents| == 0 {
      if remaining != 0 {
        return Failure(UnassignedRemainder);
      }
    } else {
      var bpsTotal := AddBps(bpsComponents);
      if bpsTotal == None {
        return Failure(BpsMissingOrNegative);
      }
      if bpsTotal.value != 10_000 {
        return Failure(BpsTotalNotWhole);
      }
      ValidIsApportionable(net, components);
      entries := PushPercentages(remaining, bpsComponents, entries);
    }
    assert entries == Split(net, components);

    var sumCheck := AddEntries(entries);
    SplitIsExact(net, components);
    if sumCheck != net {
      assert false;
    }
    return Success(entries);
  }
}
