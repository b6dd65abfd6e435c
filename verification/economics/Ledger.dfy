/** The append-only commission ledger, reduced per accrual and reconciled per period. */
module Ledger {
  import opened Results
  import opened Sequences
  import opened CommissionSplits

  datatype EntryType = Accrual | Adjustment | Payment | Reversal

  datatype Direction = Credit | Debit

  datatype LedgerEntry = LedgerEntry(entryType: EntryType, direction: Direction, amountMinor: int)

  datatype DerivedStatus = Accrued | Adjusted | PartiallyPaid | Paid | Reversed

  datatype AccrualBalance = AccrualBalance(
    status: DerivedStatus,
    originalAmountMinor: int,
    netAmountMinor: int,
    paidAmountMinor: int,
    outstandingAmountMinor: int)

  datatype LedgerError = NotExactlyOneAccrual(found: nat)

  datatype Mismatch = BasisMismatch | DistributionMismatch

  datatype Reconciliation = Reconciliation(
    reconciled: bool,
    distributedMinor: int,
    paidMinor: int,
    outstandingMinor: int,
    mismatches: seq<Mismatch>)

  // ----- the specification: totals per entry type -----

  /** What an entry adds to the total of a type; only an adjustment's direction counts. */
  function Contribution(t: EntryType, e: LedgerEntry): int {
    if e.entryType != t then 0
    else if t == Adjustment && e.direction == Debit then -e.amountMinor
    else e.amountMinor
  }

  function Total(t: EntryType, es: seq<LedgerEntry>): int {
    Sum(Map(es, e => Contribution(t, e)))
  }

  predicate Has(t: EntryType, es: seq<LedgerEntry>) {
    exists e :: e in es && e.entryType == t
  }

  function Accruals(es: seq<LedgerEntry>): seq<LedgerEntry> {
    Filter(es, (e: LedgerEntry) => e.entryType == Accrual)
  }

  function NetAmount(es: seq<LedgerEntry>): int {
    Total(Accrual, es) + Total(Adjustment, es)
  }

  function Outstanding(es: seq<LedgerEntry>): int {
    if Has(Reversal, es) then 0 else NetAmount(es) - Total(Payment, es)
  }

  function Status(es: seq<LedgerEntry>): DerivedStatus {
    if Has(Reversal, es) then Reversed
    else if Outstanding(es) <= 0 then Paid
    else if Total(Payment, es) > 0 then PartiallyPaid
    else if Has(Adjustment, es) then Adjusted
    else Accrued
  }

  /** The balance of one accrual's chain. */
  function Balance(es: seq<LedgerEntry>): AccrualBalance {
    AccrualBalance(Status(es), Total(Accrual, es), NetAmount(es), Total(Payment, es), Outstanding(es))
  }

  function PeriodOutstanding(es: seq<LedgerEntry>): int {
    Total(Accrual, es) + Total(Adjustment, es) - Total(Payment, es) - Total(Reversal, es)
  }

  function Mismatches(grossMinor: int, deductionsMinor: int, netMinor: int, es: seq<LedgerEntry>): seq<Mismatch> {
    (if grossMinor - deductionsMinor != netMinor then [BasisMismatch] else [])
    + (if Total(Accrual, es) != netMinor then [DistributionMismatch] else [])
  }

  // ----- adding one entry, and rearranging -----

  lemma TotalAppend(t: EntryType, es: seq<LedgerEntry>, e: LedgerEntry)
    ensures Total(t, es + [e]) == Total(t, es) + Contribution(t, e)
  {
    MapAppend(es, e, e => Contribution(t, e));
    SumAppend(Map(es, e => Contribution(t, e)), Contribution(t, e));
  }

  lemma TotalConcat(t: EntryType, es: seq<LedgerEntry>, fs: seq<LedgerEntry>)
    ensures Total(t, es + fs) == Total(t, es) + Total(t, fs)
  {
    MapConcat(es, fs, e => Contribution(t, e));
    SumConcat(Map(es, e => Contribution(t, e)), Map(fs, e => Contribution(t, e)));
  }

  lemma TotalPermutation(t: EntryType, es: seq<LedgerEntry>, fs: seq<LedgerEntry>)
    requires Permutation(es, fs)
    ensures Total(t, es) == Total(t, fs)
  {
    MapPermutation(es, fs, e => Contribution(t, e));
    SumPermutation(Map(es, e => Contribution(t, e)), Map(fs, e => Contribution(t, e)));
  }

  lemma {:induction false} AbsentTypeTotal(t: EntryType, es: seq<LedgerEntry>)
    requires !Has(t, es)
    ensures Total(t, es) == 0
  {
    if es != [] {
      var init, e := es[..|es| - 1], es[|es| - 1];
      assert es == init + [e];
      assert e in es && forall f :: f in init ==> f in es;
      AbsentTypeTotal(t, init);
      TotalAppend(t, init, e);
    }
  }

  /** Neither reduction depends on the order of the entries. */
  lemma ReductionsIgnoreOrder(es: seq<LedgerEntry>, fs: seq<LedgerEntry>, grossMinor: int, deductionsMinor: int, netMinor: int)
    requires Permutation(es, fs)
    ensures |Accruals(es)| == |Accruals(fs)| && Balance(es) == Balance(fs)
    ensures PeriodOutstanding(es) == PeriodOutstanding(fs)
    ensures Mismatches(grossMinor, deductionsMinor, netMinor, es) == Mismatches(grossMinor, deductionsMinor, netMinor, fs)
  {
    TotalPermutation(Accrual, es, fs);
    TotalPermutation(Adjustment, es, fs);
    TotalPermutation(Payment, es, fs);
    TotalPermutation(Reversal, es, fs);
    SameElements(es, fs);
    FilterPermutation(es, fs, (e: LedgerEntry) => e.entryType == Accrual);
    SameElements(Accruals(es), Accruals(fs));
  }

  // ----- totals and statuses over the fields of entries -----

  /** The amounts of the entries of one type and direction. */
  function AmountOf(t: EntryType, d: Direction, es: seq<LedgerEntry>): int {
    Sum(Map(Filter(es, (e: LedgerEntry) => e.entryType == t && e.direction == d), (e: LedgerEntry) => e.amountMinor))
  }

  lemma AmountAppend(t: EntryType, d: Direction, es: seq<LedgerEntry>, e: LedgerEntry)
    ensures AmountOf(t, d, es + [e]) == AmountOf(t, d, es) + (if e.entryType == t && e.direction == d then e.amountMinor else 0)
  {
    hide Filter, Map, Sum;
    var kept := Filter(es, (e: LedgerEntry) => e.entryType == t && e.direction == d);
    FilterAppend(es, e, (e: LedgerEntry) => e.entryType == t && e.direction == d);
    SumMapAppend(kept, e, (e: LedgerEntry) => e.amountMinor);
    assert kept + [] == kept;
  }

  lemma NoAmounts(t: EntryType)
    ensures Total(t, []) == AmountOf(t, Credit, []) == AmountOf(t, Debit, []) == 0
  {}

  /** Adjustments count by direction, credits up and debits down; entries of any other type count in full either way. */
  lemma {:induction false} TotalsByDirection(es: seq<LedgerEntry>)
    ensures Total(Adjustment, es) == AmountOf(Adjustment, Credit, es) - AmountOf(Adjustment, Debit, es)
    ensures forall t :: t != Adjustment ==> Total(t, es) == AmountOf(t, Credit, es) + AmountOf(t, Debit, es)
  {
    hide Total, AmountOf;
    if es == [] {
      forall t ensures Total(t, []) == AmountOf(t, Credit, []) == AmountOf(t, Debit, []) == 0 {
        NoAmounts(t);
      }
    } else {
      var init, e := es[..|es| - 1], es[|es| - 1];
      assert es == init + [e];
      TotalsByDirection(init);
      forall t
        ensures Total(t, es) == Total(t, init) + Contribution(t, e)
        ensures AmountOf(t, Credit, es) == AmountOf(t, Credit, init) + (if e.entryType == t && e.direction == Credit then e.amountMinor else 0)
        ensures AmountOf(t, Debit, es) == AmountOf(t, Debit, init) + (if e.entryType == t && e.direction == Debit then e.amountMinor else 0)
      {
        TotalAppend(t, init, e);
        AmountAppend(t, Credit, init, e);
        AmountAppend(t, Debit, init, e);
      }
    }
  }

  /** The amounts of a balance, entry by entry. */
  lemma BalanceAmounts(es: seq<LedgerEntry>)
    ensures var b := Balance(es);
            && b.originalAmountMinor == AmountOf(Accrual, Credit, es) + AmountOf(Accrual, Debit, es)
            && b.netAmountMinor == b.originalAmountMinor + AmountOf(Adjustment, Credit, es) - AmountOf(Adjustment, Debit, es)
            && b.paidAmountMinor == AmountOf(Payment, Credit, es) + AmountOf(Payment, Debit, es)
            && b.outstandingAmountMinor
               == if exists e :: e in es && e.entryType == Reversal then 0 else b.netAmountMinor - b.paidAmountMinor
  {
    TotalsByDirection(es);
    hide Total, AmountOf;
  }

  /** A chain has each status exactly when the chain and its amounts say so; the five conditions exclude one another. */
  lemma StatusMeans(es: seq<LedgerEntry>)
    ensures var b := Balance(es);
            var reversed, adjusted := (exists e :: e in es && e.entryType == Reversal), (exists e :: e in es && e.entryType == Adjustment);
            && (b.status == Reversed <==> reversed)
            && (b.status == Paid <==> !reversed && b.netAmountMinor <= b.paidAmountMinor)
            && (b.status == PartiallyPaid <==> !reversed && b.netAmountMinor > b.paidAmountMinor && b.paidAmountMinor > 0)
            && (b.status == Adjusted <==> !reversed && b.netAmountMinor > b.paidAmountMinor && b.paidAmountMinor <= 0 && adjusted)
            && (b.status == Accrued <==> !reversed && b.netAmountMinor > b.paidAmountMinor && b.paidAmountMinor <= 0 && !adjusted)
  {
    hide Total;
  }

  /** What the period still owes, entry by entry. */
  lemma PeriodAmounts(es: seq<LedgerEntry>)
    ensures PeriodOutstanding(es)
         == AmountOf(Accrual, Credit, es) + AmountOf(Accrual, Debit, es) + AmountOf(Adjustment, Credit, es) - AmountOf(Adjustment, Debit, es)
            - AmountOf(Payment, Credit, es) - AmountOf(Payment, Debit, es) - AmountOf(Reversal, Credit, es) - AmountOf(Reversal, Debit, es)
  {
    TotalsByDirection(es);
    hide Total, AmountOf;
  }

  // ----- the reductions as the source runs them -----

  /** One pass over a chain, starting from its original amount. */
  method ReduceChain(entries: seq<LedgerEntry>, originalAmountMinor: int)
    returns (netAmountMinor: int, paidAmountMinor: int, hasAdjustment: bool, hasReversal: bool)
    ensures netAmountMinor == originalAmountMinor + Total(Adjustment, entries)
    ensures paidAmountMinor == Total(Payment, entries)
    ensures hasAdjustment == Has(Adjustment, entries) && hasReversal == Has(Reversal, entries)
  {
    hide Total, Has;
    netAmountMinor, paidAmountMinor, hasAdjustment, hasReversal := originalAmountMinor, 0, false, false;
    NothingYet(entries);
    for i := 0 to |entries|
      invariant netAmountMinor == originalAmountMinor + Total(Adjustment, entries[..i])
      invariant paidAmountMinor == Total(Payment, entries[..i])
      invariant hasAdjustment == Has(Adjustment, entries[..i])
      invariant hasReversal == Has(Reversal, entries[..i])
    {
      var e := entries[i];
      assert entries[..i + 1] == entries[..i] + [e];
      TotalAppend(Adjustment, entries[..i], e);
      TotalAppend(Payment, entries[..i], e);
      HasAppend(Adjustment, entries[..i], e);
      HasAppend(Reversal, entries[..i], e);
      if e.entryType == Adjustment {
        hasAdjustment := true;
        netAmountMinor := netAmountMinor + (if e.direction == Credit then e.amountMinor else -e.amountMinor);
      } else if e.entryType == Payment {
        paidAmountMinor := paidAmountMinor + e.amountMinor;
      } else if e.entryType == Reversal {
        hasReversal := true;
      }
    }
    assert entries[..|entries|] == entries;
  }

  method ComputeAccrualBalance(entries: seq<LedgerEntry>) returns (r: Result<AccrualBalance, LedgerError>)
    ensures r.Failure? <==> |Accruals(entries)| != 1
    ensures r.Failure? ==> r.error == NotExactlyOneAccrual(|Accruals(entries)|)
    ensures r.Success? ==> r.value == Balance(entries)
  {
    hide Total, Has, Accruals;
    var accrualEntries := Accruals(entries);
    if |accrualEntries| != 1 {
      return Failure(NotExactlyOneAccrual(|accrualEntries|));
    }
    var originalAmountMinor := accrualEntries[0].amountMinor;
    OneAccrualTotal(entries);
    var netAmountMinor, paidAmountMinor, hasAdjustment, hasReversal := ReduceChain(entries, originalAmountMinor);
    var outstandingAmountMinor := if hasReversal then 0 else netAmountMinor - paidAmountMinor;
    var status :=
      if hasReversal then Reversed
      else if outstandingAmountMinor <= 0 then Paid
      else if paidAmountMinor > 0 then PartiallyPaid
      else if hasAdjustment then Adjusted
      else Accrued;
    return Success(AccrualBalance(status, originalAmountMinor, netAmountMinor, paidAmountMinor, outstandingAmountMinor));
  }

  lemma NothingYet(es: seq<LedgerEntry>)
    ensures forall t :: Total(t, es[..0]) == 0 && !Has(t, es[..0])
  {}

  lemma HasAppend(t: EntryType, es: seq<LedgerEntry>, e: LedgerEntry)
    ensures Has(t, es + [e]) <==> Has(t, es) || e.entryType == t
  {
    assert e in es + [e];
    assert forall f :: f in es ==> f in es + [e];
  }

  lemma {:induction false} NoAccrualTotal(es: seq<LedgerEntry>)
    requires Accruals(es) == []
    ensures Total(Accrual, es) == 0
  {
    if es != [] {
      var init, e := es[..|es| - 1], es[|es| - 1];
      assert es == init + [e];
      NoAccrualTotal(init);
      TotalAppend(Accrual, init, e);
    }
  }

  lemma {:induction false} OneAccrualTotal(es: seq<LedgerEntry>)
    requires |Accruals(es)| == 1
    ensures Total(Accrual, es) == Accruals(es)[0].amountMinor
  {
    var init, e := es[..|es| - 1], es[|es| - 1];
    assert es == init + [e];
    TotalAppend(Accrual, init, e);
    if e.entryType == Accrual {
      NoAccrualTotal(init);
    } else {
      OneAccrualTotal(init);
    }
  }

  method ReconcileRevenueEvent(grossAmountMinor: int, deductionsMinor: int, netDistributableMinor: int, ledgerEntries: seq<LedgerEntry>)
    returns (r: Reconciliation)
    ensures r.mismatches == Mismatches(grossAmountMinor, deductionsMinor, netDistributableMinor, ledgerEntries)
    ensures r.reconciled <==> r.mismatches == []
    ensures r.distributedMinor == Total(Accrual, ledgerEntries) && r.paidMinor == Total(Payment, ledgerEntries)
    ensures r.outstandingMinor == PeriodOutstanding(ledgerEntries)
  {
    hide Total, Has;
    var es := ledgerEntries;
    NothingYet(es);
    var mismatches: seq<Mismatch> := [];
    var expectedNet := grossAmountMinor - deductionsMinor;
    if expectedNet != netDistributableMinor {
      mismatches := mismatches + [BasisMismatch];
    }
    var distributedMinor, paidMinor, adjustmentNetMinor, reversedMinor := 0, 0, 0, 0;
    for i := 0 to |es|
      invariant distributedMinor == Total(Accrual, es[..i])
      invariant paidMinor == Total(Payment, es[..i])
      invariant adjustmentNetMinor == Total(Adjustment, es[..i])
      invariant reversedMinor == Total(Reversal, es[..i])
    {
      var e := es[i];
      assert es[..i + 1] == es[..i] + [e];
      TotalAppend(Accrual, es[..i], e);
      TotalAppend(Payment, es[..i], e);
      TotalAppend(Adjustment, es[..i], e);
      TotalAppend(Reversal, es[..i], e);
      match e.entryType
      case Accrual => distributedMinor := distributedMinor + e.amountMinor;
      case Payment => paidMinor := paidMinor + e.amountMinor;
      case Adjustment => adjustmentNetMinor := adjustmentNetMinor + (if e.direction == Credit then e.amountMinor else -e.amountMinor);
      case Reversal => reversedMinor := reversedMinor + e.amountMinor;
    }
    assert es[..|es|] == es;
    if distributedMinor != netDistributableMinor {
      mismatches := mismatches + [DistributionMismatch];
    }
    var outstandingMinor := distributedMinor + adjustmentNetMinor - paidMinor - reversedMinor;
    r := Reconciliation(|mismatches| == 0, distributedMinor, paidMinor, outstandingMinor, mismatches);
  }

  // ----- the period view against the accrual view -----

  function Flatten(chains: seq<seq<LedgerEntry>>): seq<LedgerEntry> {
    if chains == [] then [] else Flatten(chains[..|chains| - 1]) + chains[|chains| - 1]
  }

  /** What the period counts for a chain and the chain's own balance does not: only reversed chains have any. */
  function ReversalGap(chain: seq<LedgerEntry>): int {
    if Has(Reversal, chain) then NetAmount(chain) - Total(Payment, chain) - Total(Reversal, chain) else 0
  }

  lemma ChainGap(chain: seq<LedgerEntry>)
    ensures PeriodOutstanding(chain) - Outstanding(chain) == ReversalGap(chain)
  {
    if !Has(Reversal, chain) {
      AbsentTypeTotal(Reversal, chain);
    }
  }

  lemma {:induction false} FlattenedGap(chains: seq<seq<LedgerEntry>>)
    ensures PeriodOutstanding(Flatten(chains)) - Sum(Map(chains, Outstanding)) == Sum(Map(chains, ReversalGap))
  {
    if chains == [] {
      assert Flatten(chains) == [];
    } else {
      var init, chain := chains[..|chains| - 1], chains[|chains| - 1];
      FlattenedGap(init);
      ChainGap(chain);
      TotalConcat(Accrual, Flatten(init), chain);
      TotalConcat(Adjustment, Flatten(init), chain);
      TotalConcat(Payment, Flatten(init), chain);
      TotalConcat(Reversal, Flatten(init), chain);
      SumAppend(Map(init, Outstanding), Outstanding(chain));
      SumAppend(Map(init, ReversalGap), ReversalGap(chain));
    }
  }

  /**
   However the chains are interleaved in the period's ledger, the period's outstanding amount exceeds the sum of the
   chains' own by exactly the unreversed rest of the reversed chains.
   */
  lemma PeriodAgainstAccruals(ledger: seq<LedgerEntry>, chains: seq<seq<LedgerEntry>>)
    requires Permutation(ledger, Flatten(chains))
    ensures PeriodOutstanding(ledger) - Sum(Map(chains, Outstanding)) == Sum(Map(chains, ReversalGap))
  {
    FlattenedGap(chains);
    TotalPermutation(Accrual, ledger, Flatten(chains));
    TotalPermutation(Adjustment, ledger, Flatten(chains));
    TotalPermutation(Payment, ledger, Flatten(chains));
    TotalPermutation(Reversal, ledger, Flatten(chains));
  }

  /** For one accrual the views agree exactly when it is not reversed, or reversed by just what was not paid. */
  lemma ChainAgreesIff(chain: seq<LedgerEntry>)
    ensures PeriodOutstanding(chain) == Outstanding(chain)
      <==> !Has(Reversal, chain) || Total(Reversal, chain) == NetAmount(chain) - Total(Payment, chain)
  {
    ChainGap(chain);
    hide Total, Has;
  }

  /** For a period they agree exactly when the gaps of its reversed accruals cancel. */
  lemma PeriodAgreesIff(ledger: seq<LedgerEntry>, chains: seq<seq<LedgerEntry>>)
    requires Permutation(ledger, Flatten(chains))
    ensures PeriodOutstanding(ledger) == Sum(Map(chains, Outstanding)) <==> Sum(Map(chains, ReversalGap)) == 0
  {
    PeriodAgainstAccruals(ledger, chains);
  }

  lemma TotalOfThree(t: EntryType, a: LedgerEntry, b: LedgerEntry, c: LedgerEntry)
    ensures Total(t, [a, b, c]) == Contribution(t, a) + Contribution(t, b) + Contribution(t, c)
  {
    hide Total, Contribution;
    NothingYet([a]);
    assert [a][..0] == [];
    TotalAppend(t, [], a);
    TotalAppend(t, [a], b);
    TotalAppend(t, [a, b], c);
    assert [] + [a] == [a] && [a] + [b] == [a, b] && [a, b] + [c] == [a, b, c];
  }

  /** The two views really differ: an accrual paid in full and then reversed in full is owed -100 by the period, 0 by itself. */
  lemma ViewsCanDisagree()
    ensures var chain := [LedgerEntry(Accrual, Credit, 100), LedgerEntry(Payment, Debit, 100), LedgerEntry(Reversal, Debit, 100)];
            Outstanding(chain) == 0 && PeriodOutstanding(chain) == -100
  {
    hide Total;
    var a, p, v := LedgerEntry(Accrual, Credit, 100), LedgerEntry(Payment, Debit, 100), LedgerEntry(Reversal, Debit, 100);
    assert v in [a, p, v];
    TotalOfThree(Accrual, a, p, v);
    TotalOfThree(Adjustment, a, p, v);
    TotalOfThree(Payment, a, p, v);
    TotalOfThree(Reversal, a, p, v);
  }

  // ----- a split stays distributed -----

  function AsAccrual(e: Entry): LedgerEntry {
    LedgerEntry(Accrual, Credit, e.amountMinor)
  }

  lemma AccrualsOfEntries(entries: seq<Entry>)
    ensures Total(Accrual, Map(entries, AsAccrual)) == EntryTotal(entries)
  {
    assert Map(Map(entries, AsAccrual), e => Contribution(Accrual, e)) == Map(entries, (e: Entry) => e.amountMinor);
  }

  /** Accruals written from a valid split never show a distribution mismatch, whatever is appended that is not an accrual. */
  lemma SplitStaysDistributed(
      net: int, cs: seq<Component>, later: seq<LedgerEntry>, ledger: seq<LedgerEntry>, grossMinor: int, deductionsMinor: int)
    requires Problem(net, cs) == None && !Has(Accrual, later)
    requires Permutation(ledger, Map(Split(net, cs), AsAccrual) + later)
    ensures Total(Accrual, ledger) == net && DistributionMismatch !in Mismatches(grossMinor, deductionsMinor, net, ledger)
  {
    hide Problem, Split, Total, Has, EntryTotal, Permutation;
    TotalPermutation(Accrual, ledger, Map(Split(net, cs), AsAccrual) + later);
    TotalConcat(Accrual, Map(Split(net, cs), AsAccrual), later);
    AccrualsOfEntries(Split(net, cs));
    SplitIsExact(net, cs);
    AbsentTypeTotal(Accrual, later);
  }
}
