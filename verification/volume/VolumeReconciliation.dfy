/** Reconciling the volume slices of an opportunity with its summary figures. */
module VolumeReconciliation {
  import opened Results
  import opened Sequences
  import opened Text

  datatype Cell = Cell(jurisdiction: Text, mcc: Text, cardOrigin: Text, channel: Text, period: Text)

  datatype Slice = Slice(cell: Cell, currency: Text, amountMinor: int)

  datatype Summary = Summary(
    currency: Text,
    offeredCardGpvMinor: int,
    movableNowMinor: int,
    movable30dMinor: int,
    movable90dMinor: int)

  datatype Mismatch = DuplicateCell | SumMismatch | MovabilityOrder | CurrencyMismatch

  datatype Reconciliation = Reconciliation(
    reconciled: bool,
    sliceTotalMinor: int,
    offeredCardGpvMinor: int,
    mismatches: seq<Mismatch>)

  datatype VolumeError = NegativeAmount

  const BAR: CodeUnit := 124

  /** The five fields joined with bars. */
  function CellKey(c: Cell): Text {
    c.jurisdiction + [BAR] + c.mcc + [BAR] + c.cardOrigin + [BAR] + c.channel + [BAR] + c.period
  }

  // ----- the specification -----

  function CellKeys(slices: seq<Slice>): seq<Text> {
    Map(slices, (s: Slice) => CellKey(s.cell))
  }

  /** What a slice adds to the total: nothing in a foreign currency. */
  function Counted(currency: Text, s: Slice): int {
    if s.currency == currency then s.amountMinor else 0
  }

  function SliceTotal(slices: seq<Slice>, currency: Text): int {
    Sum(Map(slices, s => Counted(currency, s)))
  }

  /** The mismatches of slice n, given the slices before it. */
  function SliceMismatches(slices: seq<Slice>, currency: Text): seq<Mismatch> {
    if slices == [] then []
    else
      var init, s := slices[..|slices| - 1], slices[|slices| - 1];
      SliceMismatches(init, currency)
      + (if CellKey(s.cell) in CellKeys(init) then [DuplicateCell] else [])
      + (if s.currency != currency then [CurrencyMismatch] else [])
  }

  predicate MovabilityOrdered(m: Summary) {
    m.movableNowMinor <= m.movable30dMinor <= m.movable90dMinor <= m.offeredCardGpvMinor
  }

  function Mismatches(slices: seq<Slice>, m: Summary): seq<Mismatch> {
    SliceMismatches(slices, m.currency)
    + (if SliceTotal(slices, m.currency) != m.offeredCardGpvMinor then [SumMismatch] else [])
    + (if !MovabilityOrdered(m) then [MovabilityOrder] else [])
  }

  predicate Reconciled(slices: seq<Slice>, m: Summary) {
    Mismatches(slices, m) == []
  }

  // ----- the method -----

  method ReconcileOpportunityVolume(slices: seq<Slice>, summary: Summary) returns (r: Result<Reconciliation, VolumeError>)
    ensures r.Failure? <==> exists s :: s in slices && s.amountMinor < 0
    ensures r.Success? ==> r.value == Reconciliation(
      Reconciled(slices, summary), SliceTotal(slices, summary.currency), summary.offeredCardGpvMinor, Mismatches(slices, summary))
  {
    NoSlices(summary.currency);
    hide SliceMismatches, SliceTotal, CellKeys, CellKey, Elements;
    var mismatches: seq<Mismatch>, seenCells: set<Text>, sliceTotalMinor := [], {}, 0;
    assert slices[..0] == [];
    for i := 0 to |slices|
      invariant forall j :: 0 <= j < i ==> slices[j].amountMinor >= 0
      invariant seenCells == Elements(CellKeys(slices[..i]))
      invariant mismatches == SliceMismatches(slices[..i], summary.currency)
      invariant sliceTotalMinor == SliceTotal(slices[..i], summary.currency)
    {
      var s := slices[i];
      if s.amountMinor < 0 {
        return Failure(NegativeAmount);
      }
      ghost var before := slices[..i];
      assert slices[..i + 1] == before + [s];
      OneMoreSlice(before, s, summary.currency);
      var cellKey := CellKey(s.cell);
      if cellKey in seenCells {
        mismatches := mismatches + [DuplicateCell];
      }
      seenCells := seenCells + {cellKey};
      if s.currency != summary.currency {
        mismatches := mismatches + [CurrencyMismatch];
        continue;
      }
      sliceTotalMinor := sliceTotalMinor + s.amountMinor;
    }
    assert slices[..|slices|] == slices;
    if sliceTotalMinor != summary.offeredCardGpvMinor {
      mismatches := mismatches + [SumMismatch];
    }
    if !(summary.movableNowMinor <= summary.movable30dMinor
         && summary.movable30dMinor <= summary.movable90dMinor
         && summary.movable90dMinor <= summary.offeredCardGpvMinor) {
      mismatches := mismatches + [MovabilityOrder];
    }
    return Success(Reconciliation(|mismatches| == 0, sliceTotalMinor, summary.offeredCardGpvMinor, mismatches));
  }

  lemma NoSlices(currency: Text)
    ensures Elements(CellKeys([])) == {} && SliceMismatches([], currency) == [] && SliceTotal([], currency) == 0
    ensures Filter([], s => Foreign(currency, s)) == []
  {}

  lemma OneMoreSlice(before: seq<Slice>, s: Slice, currency: Text)
    ensures CellKeys(before + [s]) == CellKeys(before) + [CellKey(s.cell)]
    ensures Elements(CellKeys(before + [s])) == Elements(CellKeys(before)) + {CellKey(s.cell)}
    ensures CellKey(s.cell) in CellKeys(before) <==> CellKey(s.cell) in Elements(CellKeys(before))
    ensures SliceTotal(before + [s], currency) == SliceTotal(before, currency) + Counted(currency, s)
    ensures SliceMismatches(before + [s], currency) == SliceMismatches(before, currency)
      + (if CellKey(s.cell) in CellKeys(before) then [DuplicateCell] else [])
      + (if s.currency != currency then [CurrencyMismatch] else [])
  {
    hide CellKey, Counted;
    MapAppend(before, s, (s: Slice) => CellKey(s.cell));
    MapAppend(before, s, s => Counted(currency, s));
    SumAppend(Map(before, s => Counted(currency, s)), Counted(currency, s));
    assert (before + [s])[..|before|] == before;
  }

  // ----- what the verdict means -----

  /** Reconciled: all keys different, one currency, the total as offered, the movability figures in order. */
  lemma {:induction false} ReconciledMeans(slices: seq<Slice>, m: Summary)
    ensures SliceMismatches(slices, m.currency) == []
      <==> Distinct(CellKeys(slices)) && forall s :: s in slices ==> s.currency == m.currency
    ensures Reconciled(slices, m) <==>
      && Distinct(CellKeys(slices))
      && (forall s :: s in slices ==> s.currency == m.currency)
      && SliceTotal(slices, m.currency) == m.offeredCardGpvMinor
      && m.movableNowMinor <= m.movable30dMinor <= m.movable90dMinor <= m.offeredCardGpvMinor
  {
    hide CellKey, SliceTotal;
    if slices != [] {
      var init, s := slices[..|slices| - 1], slices[|slices| - 1];
      assert slices == init + [s];
      ReconciledMeans(init, m);
      OneMoreSlice(init, s, m.currency);
      DistinctAppend(CellKeys(init), CellKey(s.cell));
    }
  }

  // ----- grouping -----

  /** The distinct values of a grouping, in order of first appearance. */
  function Groups<K(==)>(slices: seq<Slice>, key: Slice -> K): seq<K> {
    if slices == [] then []
    else
      var init, k := Groups(slices[..|slices| - 1], key), key(slices[|slices| - 1]);
      if k in init then init else init + [k]
  }

  function GroupTotal<K(==)>(slices: seq<Slice>, key: Slice -> K, k: K): int {
    Sum(Map(Filter(slices, s => key(s) == k), (s: Slice) => s.amountMinor))
  }

  /** The sum over all groups of each group's own sum. */
  function GroupedTotal<K(==)>(slices: seq<Slice>, key: Slice -> K): int {
    Sum(Map(Groups(slices, key), k => GroupTotal(slices, key, k)))
  }

  function GrandTotal(slices: seq<Slice>): int {
    Sum(Map(slices, (s: Slice) => s.amountMinor))
  }

  lemma {:induction false} GroupsAreTheKeys<K>(slices: seq<Slice>, key: Slice -> K)
    ensures Distinct(Groups(slices, key))
    ensures forall s :: s in slices ==> key(s) in Groups(slices, key)
    ensures forall k :: k in Groups(slices, key) ==> exists s :: s in slices && key(s) == k
  {
    if slices != [] {
      var init, s := slices[..|slices| - 1], slices[|slices| - 1];
      assert slices == init + [s];
      GroupsAreTheKeys(init, key);
      DistinctAppend(Groups(init, key), key(s));
    }
  }

  lemma GroupTotalAppend<K>(slices: seq<Slice>, s: Slice, key: Slice -> K, k: K)
    ensures GroupTotal(slices + [s], key, k) == GroupTotal(slices, key, k) + (if key(s) == k then s.amountMinor else 0)
  {
    var amount := (s: Slice) => s.amountMinor;
    FilterAppend(slices, s, s => key(s) == k);
    var kept := Filter(slices, s => key(s) == k);
    if key(s) == k {
      MapAppend(kept, s, amount);
      SumAppend(Map(kept, amount), s.amountMinor);
    } else {
      assert kept + [] == kept;
    }
  }

  /** Adding amount to the entry of one of several distinct keys adds it to the sum. */
  lemma {:induction false} SumWithOneChanged<K>(ks: seq<K>, f: K -> int, g: K -> int, k: K, amount: int)
    requires Distinct(ks)
    requires forall j :: g(j) == f(j) + (if j == k then amount else 0)
    ensures Sum(Map(ks, g)) == Sum(Map(ks, f)) + (if k in ks then amount else 0)
  {
    if ks != [] {
      var init, last := ks[..|ks| - 1], ks[|ks| - 1];
      assert ks == init + [last];
      DistinctAppend(init, last);
      SumWithOneChanged(init, f, g, k, amount);
      MapAppend(init, last, f);
      MapAppend(init, last, g);
      SumAppend(Map(init, f), f(last));
      SumAppend(Map(init, g), g(last));
    }
  }

  lemma {:induction false} EmptyGroup<K>(slices: seq<Slice>, key: Slice -> K, k: K)
    requires forall s :: s in slices ==> key(s) != k
    ensures GroupTotal(slices, key, k) == 0
  {
    if slices != [] {
      var init, s := slices[..|slices| - 1], slices[|slices| - 1];
      assert slices == init + [s];
      EmptyGroup(init, key, k);
      GroupTotalAppend(init, s, key, k);
    }
  }

  /** Grouping never changes a sum: by any key, the group totals add up to the grand total. */
  lemma {:induction false} GroupingKeepsTheSum<K>(slices: seq<Slice>, key: Slice -> K)
    ensures GroupedTotal(slices, key) == GrandTotal(slices)
  {
    if slices != [] {
      var init, s := slices[..|slices| - 1], slices[|slices| - 1];
      assert slices == init + [s];
      GroupingKeepsTheSum(init, key);
      GroupedTotalAppend(init, s, key);
      MapAppend(init, s, (s: Slice) => s.amountMinor);
      SumAppend(Map(init, (s: Slice) => s.amountMinor), s.amountMinor);
    }
  }

  lemma GroupedTotalAppend<K>(init: seq<Slice>, s: Slice, key: Slice -> K)
    ensures GroupedTotal(init + [s], key) == GroupedTotal(init, key) + s.amountMinor
  {
    hide GroupTotal, Map, Sum;
    var slices := init + [s];
    var before, after := k => GroupTotal(init, key, k), k => GroupTotal(slices, key, k);
    var ks := Groups(init, key);
    assert slices[..|init|] == init;
    GroupsAreTheKeys(init, key);
    forall k ensures after(k) == before(k) + (if k == key(s) then s.amountMinor else 0) {
      GroupTotalAppend(init, s, key, k);
    }
    SumWithOneChanged(ks, before, after, key(s), s.amountMinor);
    if key(s) !in ks {
      forall t | t in init ensures key(t) != key(s) {
        assert key(t) in ks;
      }
      EmptyGroup(init, key, key(s));
      GroupTotalAppend(init, s, key, key(s));
      MapAppend(ks, key(s), after);
      SumAppend(Map(ks, after), after(key(s)));
    }
  }

  /** A reconciled opportunity: volume by jurisdiction, by MCC and by the pair all equal the offered figure, and no cell occurs twice. */
  lemma ReconciledInEveryGrouping(slices: seq<Slice>, m: Summary)
    requires Reconciled(slices, m)
    ensures GroupedTotal(slices, (s: Slice) => s.cell.jurisdiction) == m.offeredCardGpvMinor
    ensures GroupedTotal(slices, (s: Slice) => s.cell.mcc) == m.offeredCardGpvMinor
    ensures GroupedTotal(slices, (s: Slice) => (s.cell.jurisdiction, s.cell.mcc)) == m.offeredCardGpvMinor
    ensures forall i, j :: 0 <= i < j < |slices| ==> slices[i].cell != slices[j].cell
    ensures forall s :: s in slices ==> s.currency == m.currency
  {
    hide Reconciled, CellKey, GroupedTotal;
    ReconciledMeans(slices, m);
    GroupingKeepsTheSum(slices, (s: Slice) => s.cell.jurisdiction);
    GroupingKeepsTheSum(slices, (s: Slice) => s.cell.mcc);
    GroupingKeepsTheSum(slices, (s: Slice) => (s.cell.jurisdiction, s.cell.mcc));
    forall i, j | 0 <= i < j < |slices| ensures slices[i].cell != slices[j].cell {
      assert CellKeys(slices)[i] != CellKeys(slices)[j];
    }
    assert Map(slices, s => Counted(m.currency, s)) == Map(slices, (s: Slice) => s.amountMinor);
  }

  // ----- the order of the slices -----

  predicate Foreign(currency: Text, s: Slice) {
    s.currency != currency
  }

  lemma GrownSize<T>(xs: seq<T>, x: T)
    ensures |Elements(xs + [x])| == |Elements(xs)| + (if x in xs then 0 else 1)
  {
    assert Elements(xs + [x]) == Elements(xs) + {x};
    assert x in xs <==> x in Elements(xs);
  }

  lemma CountsInThree<T>(a: seq<T>, b: seq<T>, c: seq<T>, x: T)
    ensures multiset(a + b + c)[x] == multiset(a)[x] + multiset(b)[x] + multiset(c)[x]
    ensures x in a + b + c <==> x in a || x in b || x in c
  {
    assert multiset(a + b + c) == multiset(a) + multiset(b) + multiset(c);
  }

  /** How often a kind is reported: one duplicate per slice beyond the first of its key, one mismatch per foreign slice. */
  ghost function Expected(slices: seq<Slice>, currency: Text, x: Mismatch): int {
    if x == DuplicateCell then |slices| - |Elements(CellKeys(slices))|
    else if x == CurrencyMismatch then |Filter(slices, s => Foreign(currency, s))|
    else 0
  }

  lemma NoneExpected(currency: Text, x: Mismatch)
    ensures Expected([], currency, x) == 0 && SliceMismatches([], currency) == []
  {
    NoSlices(currency);
  }

  lemma OneMoreExpected(init: seq<Slice>, s: Slice, currency: Text, x: Mismatch)
    ensures Expected(init + [s], currency, x) == Expected(init, currency, x)
      + (if x == DuplicateCell && CellKey(s.cell) in CellKeys(init) then 1 else 0)
      + (if x == CurrencyMismatch && Foreign(currency, s) then 1 else 0)
  {
    OneMoreSlice(init, s, currency);
    GrownSize(CellKeys(init), CellKey(s.cell));
    FilterAppend(init, s, s => Foreign(currency, s));
    hide SliceMismatches, SliceTotal, CellKeys, CellKey, Elements, Filter, Foreign;
  }

  lemma {:induction false} MismatchCounts(slices: seq<Slice>, currency: Text, x: Mismatch)
    ensures multiset(SliceMismatches(slices, currency))[x] == Expected(slices, currency, x)
  {
    NoneExpected(currency, x);
    hide SliceMismatches, SliceTotal, CellKeys, CellKey, Elements, Expected, Filter, Map;
    if slices != [] {
      var init, s := slices[..|slices| - 1], slices[|slices| - 1];
      assert slices == init + [s];
      MismatchCounts(init, currency, x);
      OneMoreSlice(init, s, currency);
      OneMoreExpected(init, s, currency, x);
      var duplicate: seq<Mismatch> := if CellKey(s.cell) in CellKeys(init) then [DuplicateCell] else [];
      var foreign: seq<Mismatch> := if Foreign(currency, s) then [CurrencyMismatch] else [];
      assert SliceMismatches(slices, currency) == SliceMismatches(init, currency) + duplicate + foreign;
      CountsInThree(SliceMismatches(init, currency), duplicate, foreign, x);
    }
  }

  lemma SameKeySet(slices: seq<Slice>, others: seq<Slice>)
    requires Permutation(slices, others)
    ensures |slices| == |others| && Elements(CellKeys(slices)) == Elements(CellKeys(others))
  {
    hide CellKey, Map;
    MapPermutation(slices, others, (s: Slice) => CellKey(s.cell));
    SameElements(CellKeys(slices), CellKeys(others));
    SameElements(slices, others);
  }

  lemma SameSliceMismatches(slices: seq<Slice>, others: seq<Slice>, currency: Text)
    requires Permutation(slices, others)
    ensures Permutation(SliceMismatches(slices, currency), SliceMismatches(others, currency))
  {
    hide SliceMismatches, CellKeys, CellKey, Elements, Filter;
    SameKeySet(slices, others);
    FilterPermutation(slices, others, s => Foreign(currency, s));
    SameElements(Filter(slices, s => Foreign(currency, s)), Filter(others, s => Foreign(currency, s)));
    forall x ensures multiset(SliceMismatches(slices, currency))[x] == multiset(SliceMismatches(others, currency))[x] {
      MismatchCounts(slices, currency, x);
      MismatchCounts(others, currency, x);
    }
  }

  lemma SameSliceTotal(slices: seq<Slice>, others: seq<Slice>, currency: Text)
    requires Permutation(slices, others)
    ensures SliceTotal(slices, currency) == SliceTotal(others, currency)
  {
    MapPermutation(slices, others, s => Counted(currency, s));
    SumPermutation(Map(slices, s => Counted(currency, s)), Map(others, s => Counted(currency, s)));
  }

  /** Total, verdict and the mismatches, counted by kind, do not depend on the order of the slices. */
  lemma ReconciliationIgnoresOrder(slices: seq<Slice>, others: seq<Slice>, m: Summary)
    requires Permutation(slices, others)
    ensures SliceTotal(slices, m.currency) == SliceTotal(others, m.currency)
    ensures Reconciled(slices, m) <==> Reconciled(others, m)
    ensures Permutation(Mismatches(slices, m), Mismatches(others, m))
  {
    hide SliceMismatches, SliceTotal, MovabilityOrdered;
    SameSliceTotal(slices, others, m.currency);
    SameSliceMismatches(slices, others, m.currency);
    var a, b := SliceMismatches(slices, m.currency), SliceMismatches(others, m.currency);
    var sums: seq<Mismatch> := if SliceTotal(slices, m.currency) != m.offeredCardGpvMinor then [SumMismatch] else [];
    var order: seq<Mismatch> := if !MovabilityOrdered(m) then [MovabilityOrder] else [];
    assert Mismatches(slices, m) == a + sums + order && Mismatches(others, m) == b + sums + order;
    hide Mismatches;
    forall x ensures multiset(a + sums + order)[x] == multiset(b + sums + order)[x] {
      CountsInThree(a, sums, order, x);
      CountsInThree(b, sums, order, x);
    }
    SameElements(Mismatches(slices, m), Mismatches(others, m));
  }

  // ----- keys and cells -----

  predicate BarFree(c: Cell) {
    124 !in c.jurisdiction && 124 !in c.mcc && 124 !in c.cardOrigin && 124 !in c.channel && 124 !in c.period
  }

  function Bars(t: Text): nat {
    multiset(t)[BAR]
  }

  lemma BarsJoined(a: Text, b: Text)
    ensures Bars(a + [BAR] + b) == Bars(a) + 1 + Bars(b)
  {
    CountsInThree(a, [BAR], b, BAR);
  }

  lemma BarsInKey(c: Cell)
    ensures Bars(CellKey(c)) == 4 + Bars(c.jurisdiction) + Bars(c.mcc) + Bars(c.cardOrigin) + Bars(c.channel) + Bars(c.period)
    ensures BarFree(c) <==> Bars(CellKey(c)) == 4
  {
    BarsJoined(c.jurisdiction, c.mcc);
    BarsJoined(c.jurisdiction + [BAR] + c.mcc, c.cardOrigin);
    BarsJoined(c.jurisdiction + [BAR] + c.mcc + [BAR] + c.cardOrigin, c.channel);
    BarsJoined(c.jurisdiction + [BAR] + c.mcc + [BAR] + c.cardOrigin + [BAR] + c.channel, c.period);
    forall t: Text ensures BAR !in t <==> Bars(t) == 0 {
    }
    hide Bars, CellKey;
  }

  lemma ShorterDiffers(a: Text, x: Text, b: Text, y: Text)
    requires BAR !in a && |b| < |a|
    ensures a + [BAR] + x != b + [BAR] + y
  {
    assert (a + [BAR] + x)[|b|] == a[|b|];
    assert (b + [BAR] + y)[|b|] == BAR;
  }

  lemma FirstFieldAgrees(a: Text, x: Text, b: Text, y: Text)
    requires BAR !in a && BAR !in b && a + [BAR] + x == b + [BAR] + y
    ensures a == b && x == y
  {
    if |b| < |a| {
      ShorterDiffers(a, x, b, y);
    } else if |a| < |b| {
      ShorterDiffers(b, y, a, x);
    }
    var s := a + [BAR] + x;
    assert a == s[..|a|] && b == s[..|b|] && x == s[|a| + 1..] && y == s[|b| + 1..];
  }

  /** The key read from the left: a field, a bar, and the rest. */
  lemma KeyNested(c: Cell)
    ensures CellKey(c) == c.jurisdiction + [BAR] + (c.mcc + [BAR] + (c.cardOrigin + [BAR] + (c.channel + [BAR] + c.period)))
  {}

  lemma FieldsAgree(c: Cell, d: Cell)
    requires BarFree(c) && BarFree(d) && CellKey(c) == CellKey(d)
    ensures c == d
  {
    KeyNested(c);
    KeyNested(d);
    hide CellKey;
    var x4, y4 := c.channel + [BAR] + c.period, d.channel + [BAR] + d.period;
    var x3, y3 := c.cardOrigin + [BAR] + x4, d.cardOrigin + [BAR] + y4;
    FirstFieldAgrees(c.jurisdiction, c.mcc + [BAR] + x3, d.jurisdiction, d.mcc + [BAR] + y3);
    FirstFieldAgrees(c.mcc, x3, d.mcc, y3);
    FirstFieldAgrees(c.cardOrigin, x4, d.cardOrigin, y4);
    FirstFieldAgrees(c.channel, c.period, d.channel, d.period);
  }

  lemma SplitAtBar(t: Text) returns (a: Text, b: Text)
    requires BAR in t
    ensures t == a + [BAR] + b
  {
    var i :| 0 <= i < |t| && t[i] == BAR;
    a, b := t[..i], t[i + 1..];
  }

  lemma Regroup(a: Text, b: Text, x: Text)
    ensures (a + [BAR] + b) + [BAR] + x == a + [BAR] + (b + [BAR] + x)
  {}

  /** A cell with a bar in a field shares its key with another cell: the bar can be read as the separator beside that field. */
  lemma BarMakesTwin(c: Cell) returns (twin: Cell)
    requires !BarFree(c)
    ensures twin != c && CellKey(twin) == CellKey(c)
  {
    KeyNested(c);
    var tail4, tail3 := c.channel + [BAR] + c.period, c.cardOrigin + [BAR] + (c.channel + [BAR] + c.period);
    if BAR in c.jurisdiction {
      var a, b := SplitAtBar(c.jurisdiction);
      twin := c.(jurisdiction := a, mcc := b + [BAR] + c.mcc);
      Regroup(a, b, c.mcc + [BAR] + tail3);
      Regroup(b, c.mcc, tail3);
    } else if BAR in c.mcc {
      var a, b := SplitAtBar(c.mcc);
      twin := c.(mcc := a, cardOrigin := b + [BAR] + c.cardOrigin);
      Regroup(a, b, tail3);
      Regroup(b, c.cardOrigin, tail4);
    } else if BAR in c.cardOrigin {
      var a, b := SplitAtBar(c.cardOrigin);
      twin := c.(cardOrigin := a, channel := b + [BAR] + c.channel);
      Regroup(a, b, tail4);
      Regroup(b, c.channel, c.period);
    } else if BAR in c.channel {
      var a, b := SplitAtBar(c.channel);
      twin := c.(channel := a, period := b + [BAR] + c.period);
      Regroup(a, b, c.period);
    } else {
      var a, b := SplitAtBar(c.period);
      twin := c.(channel := c.channel + [BAR] + a, period := b);
      Regroup(c.channel, a, b);
    }
    KeyNested(twin);
    hide CellKey;
  }

  /** A key stands for one cell only, exactly when no field of the cell holds a bar. */
  lemma KeyIdentifiesCell(c: Cell)
    ensures BarFree(c) <==> forall d :: CellKey(d) == CellKey(c) ==> d == c
  {
    hide CellKey, BarFree;
    if BarFree(c) {
      forall d | CellKey(d) == CellKey(c) ensures d == c {
        BarsInKey(c);
        BarsInKey(d);
        FieldsAgree(c, d);
      }
    } else {
      var twin := BarMakesTwin(c);
      assert CellKey(twin) == CellKey(c) && twin != c;
    }
  }

  /** What the documentation asks of the slices: no cell twice, one currency, sums and movability as offered. */
  ghost predicate AsDocumented(slices: seq<Slice>, m: Summary) {
    && (forall i, j :: 0 <= i < j < |slices| ==> slices[i].cell != slices[j].cell)
    && (forall s :: s in slices ==> s.currency == m.currency)
    && SliceTotal(slices, m.currency) == m.offeredCardGpvMinor
    && m.movableNowMinor <= m.movable30dMinor <= m.movable90dMinor <= m.offeredCardGpvMinor
  }

  lemma VerdictIsExact(slices: seq<Slice>, m: Summary)
    requires forall i, j ::
      0 <= i < j < |slices| && CellKey(slices[i].cell) == CellKey(slices[j].cell) ==> slices[i].cell == slices[j].cell
    ensures Reconciled(slices, m) <==> AsDocumented(slices, m)
  {
    hide Reconciled, CellKey, SliceTotal;
    ReconciledMeans(slices, m);
    forall i, j | 0 <= i < j < |slices|
      ensures CellKeys(slices)[i] == CellKeys(slices)[j] <==> slices[i].cell == slices[j].cell
    {
      assert CellKeys(slices)[i] == CellKey(slices[i].cell) && CellKeys(slices)[j] == CellKey(slices[j].cell);
    }
  }

  /** Without bars in the fields the verdict is exactly the documented one. */
  lemma BarFreeVerdictIsExact(slices: seq<Slice>, m: Summary)
    requires forall s :: s in slices ==> BarFree(s.cell)
    ensures Reconciled(slices, m) <==> AsDocumented(slices, m)
  {
    hide Reconciled, AsDocumented, CellKey, BarFree;
    forall i, j | 0 <= i < j < |slices| && CellKey(slices[i].cell) == CellKey(slices[j].cell)
      ensures slices[i].cell == slices[j].cell
    {
      assert slices[i] in slices;
      KeyIdentifiesCell(slices[i].cell);
    }
    VerdictIsExact(slices, m);
  }

  // ----- the cells that requests can carry -----

  const DOMESTIC: Text := [68, 79, 77, 69, 83, 84, 73, 67]
  const INTERNATIONAL: Text := [73, 78, 84, 69, 82, 78, 65, 84, 73, 79, 78, 65, 76]
  const ECOMMERCE: Text := [69, 67, 79, 77, 77, 69, 82, 67, 69]
  const CARD_PRESENT: Text := [67, 65, 82, 68, 95, 80, 82, 69, 83, 69, 78, 84]
  const MOTO: Text := [77, 79, 84, 79]

  /** YYYY-MM */
  predicate IsPeriod(t: Text) {
    |t| == 7 && t[4] == 45 && forall i :: 0 <= i < 7 && i != 4 ==> 48 <= t[i] <= 57
  }

  /** What the request schema demands of a slice's cell. An MCC may hold any characters. */
  predicate Admitted(c: Cell) {
    && |c.jurisdiction| == 2
    && 1 <= |c.mcc| <= 8
    && (c.cardOrigin == DOMESTIC || c.cardOrigin == INTERNATIONAL)
    && (c.channel == ECOMMERCE || c.channel == CARD_PRESENT || c.channel == MOTO)
    && IsPeriod(c.period)
  }

  /** The last three fields hold no bar. */
  predicate EndsBarFree(c: Cell) {
    BAR !in c.cardOrigin && BAR !in c.channel && BAR !in c.period
  }

  lemma LongerEndDiffers(x: Text, a: Text, y: Text, b: Text)
    requires BAR !in a && |b| < |a|
    ensures x + [BAR] + a != y + [BAR] + b
  {
    var s, t := x + [BAR] + a, y + [BAR] + b;
    if |s| == |t| {
      assert s[|y|] == a[|y| - |x| - 1];
      assert t[|y|] == BAR;
    }
  }

  lemma LastFieldAgrees(x: Text, a: Text, y: Text, b: Text)
    requires BAR !in a && BAR !in b && x + [BAR] + a == y + [BAR] + b
    ensures x == y && a == b
  {
    if |b| < |a| {
      LongerEndDiffers(x, a, y, b);
    } else if |a| < |b| {
      LongerEndDiffers(y, b, x, a);
    }
    var s := x + [BAR] + a;
    assert x == s[..|x|] && y == s[..|y|] && a == s[|x| + 1..] && b == s[|y| + 1..];
  }

  /** With no bar in the last three fields, keys agree just when those fields and the joined first two do. */
  lemma KeysAgreeIff(c: Cell, d: Cell)
    requires EndsBarFree(c) && EndsBarFree(d)
    ensures CellKey(c) == CellKey(d) <==>
      && c.cardOrigin == d.cardOrigin && c.channel == d.channel && c.period == d.period
      && c.jurisdiction + [BAR] + c.mcc == d.jurisdiction + [BAR] + d.mcc
  {
    var c2, d2 := c.jurisdiction + [BAR] + c.mcc, d.jurisdiction + [BAR] + d.mcc;
    var c3, d3 := c2 + [BAR] + c.cardOrigin, d2 + [BAR] + d.cardOrigin;
    var c4, d4 := c3 + [BAR] + c.channel, d3 + [BAR] + d.channel;
    assert CellKey(c) == c4 + [BAR] + c.period && CellKey(d) == d4 + [BAR] + d.period;
    if CellKey(c) == CellKey(d) {
      LastFieldAgrees(c4, c.period, d4, d.period);
      LastFieldAgrees(c3, c.channel, d3, d.channel);
      LastFieldAgrees(c2, c.cardOrigin, d2, d.cardOrigin);
    }
  }

  lemma AdmittedEndsBarFree(c: Cell)
    requires Admitted(c)
    ensures EndsBarFree(c)
  {
    assert forall i :: 0 <= i < 7 ==> c.period[i] != BAR;
    hide IsPeriod;
  }

  /** On the cells that requests can carry the key is injective, even where an MCC holds bars: jurisdictions have one length. */
  lemma AdmittedKeysAreUnique(c: Cell, d: Cell)
    requires Admitted(c) && Admitted(d)
    ensures CellKey(c) == CellKey(d) <==> c == d
  {
    AdmittedEndsBarFree(c);
    AdmittedEndsBarFree(d);
    KeysAgreeIff(c, d);
    hide CellKey, EndsBarFree;
    if c.jurisdiction + [BAR] + c.mcc == d.jurisdiction + [BAR] + d.mcc {
      var s := c.jurisdiction + [BAR] + c.mcc;
      assert c.jurisdiction == s[..2] == d.jurisdiction && c.mcc == s[3..] == d.mcc;
    }
  }

  /** So for whatever requests can carry the verdict is exactly the documented one. */
  lemma AdmittedVerdictIsExact(slices: seq<Slice>, m: Summary)
    requires forall s :: s in slices ==> Admitted(s.cell)
    ensures Reconciled(slices, m) <==> AsDocumented(slices, m)
  {
    hide Reconciled, AsDocumented, CellKey, Admitted;
    forall i, j | 0 <= i < j < |slices| && CellKey(slices[i].cell) == CellKey(slices[j].cell)
      ensures slices[i].cell == slices[j].cell
    {
      assert slices[i] in slices && slices[j] in slices;
      AdmittedKeysAreUnique(slices[i].cell, slices[j].cell);
    }
    VerdictIsExact(slices, m);
  }

  // ----- cells beyond the schema -----

  /** Two slices whose keys agree are refused as duplicates, whatever their cells. */
  lemma SharedKeyIsRefused(one: Slice, two: Slice, m: Summary)
    requires CellKey(one.cell) == CellKey(two.cell) && one.currency == two.currency == m.currency
    requires one.amountMinor + two.amountMinor == m.offeredCardGpvMinor && MovabilityOrdered(m)
    ensures Mismatches([one, two], m) == [DuplicateCell]
  {
    hide CellKey, SliceTotal, SliceMismatches, CellKeys, MovabilityOrdered, Elements;
    NoSlices(m.currency);
    OneMoreSlice([], one, m.currency);
    OneMoreSlice([one], two, m.currency);
    assert [] + [one] == [one] && [one] + [two] == [one, two];
  }

  /** So every cell with a bar has a partner, another cell, beside which it is refused although nothing is counted twice. */
  lemma BarsCollide(c: Cell, currency: Text, amount: nat) returns (twin: Cell)
    requires !BarFree(c)
    ensures twin != c
    ensures Mismatches([Slice(c, currency, amount), Slice(twin, currency, amount)], Summary(currency, 2 * amount, 0, 0, 0)) == [DuplicateCell]
  {
    hide Mismatches;
    twin := BarMakesTwin(c);
    SharedKeyIsRefused(Slice(c, currency, amount), Slice(twin, currency, amount), Summary(currency, 2 * amount, 0, 0, 0));
  }

  /** For instance "A|B" with MCC "C" and "A" with MCC "B|C", which no request can carry: a jurisdiction has two characters. */
  lemma CollisionExample()
    ensures var one := Cell([65, BAR, 66], [67], DOMESTIC, MOTO, [50, 48, 50, 52, 45, 48, 49]);
      var two := Cell([65], [66, BAR, 67], DOMESTIC, MOTO, [50, 48, 50, 52, 45, 48, 49]);
      one != two && CellKey(one) == CellKey(two) && !Admitted(one) && !Admitted(two)
  {
    var one := Cell([65, BAR, 66], [67], DOMESTIC, MOTO, [50, 48, 50, 52, 45, 48, 49]);
    var two := Cell([65], [66, BAR, 67], DOMESTIC, MOTO, [50, 48, 50, 52, 45, 48, 49]);
    assert one.jurisdiction + [BAR] + one.mcc == two.jurisdiction + [BAR] + two.mcc;
    KeysAgreeIff(one, two);
    hide CellKey;
  }
}
