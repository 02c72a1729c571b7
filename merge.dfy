/**
 * The analysis merge engine: the pure part of `mergeAnalysisWithExisting`
 * (backend/src/services/claudeService.ts), which combines the stored analysis
 * with the analysis of a newly extracted batch. The extraction call itself is
 * not part of this function; its result arrives as `incoming`.
 */
module Merge {
  import opened Text
  import opened Dedup
  import opened Analysis
  import opened Months

  /** The snapshots of the new batch whose month the existing data does not have (new months only; duplicates within the batch stay). */
  function NewMonths(existing: seq<MonthlySnapshot>, incoming: seq<MonthlySnapshot>): seq<MonthlySnapshot>
  {
    var known := KeySet(existing, MonthOf);
    FilterByMonth(incoming, Unknown(known))
  }

  /** Existing snapshots, then the new months, sorted by month. */
  function MergeMonthlyData(existing: seq<MonthlySnapshot>, incoming: seq<MonthlySnapshot>): seq<MonthlySnapshot>
  {
    SortByMonth(existing + NewMonths(existing, incoming))
  }

  /** The mean deposit per month, and 0 for no months. */
  function AverageDeposits(ms: seq<MonthlySnapshot>): (avg: real)
    ensures |ms| > 0 ==> avg * (|ms| as real) == TotalDeposits(ms)
    ensures |ms| == 0 ==> avg == 0.0
  {
    if |ms| > 0 then TotalDeposits(ms) / (|ms| as real) else 0.0
  }

  /** `ms[0]?.month`, with a missing element read as the (falsy) empty string. */
  function FirstMonth(ms: seq<MonthlySnapshot>): string
  {
    if |ms| > 0 then ms[0].month else ""
  }

  /** `ms[ms.length - 1]?.month`, with a missing element read as the empty string. */
  function LastMonth(ms: seq<MonthlySnapshot>): string
  {
    if |ms| > 0 then ms[|ms| - 1].month else ""
  }

  /** `mergeAnalysisWithExisting` after the extraction call: every field not named here comes from `incoming`. */
  function MergeAnalysis(existing: AnalysisResult, incoming: AnalysisResult): AnalysisResult
  {
    var merged := MergeMonthlyData(existing.monthlyData, incoming.monthlyData);
    incoming.(
      businessName := Or(existing.businessName, incoming.businessName),
      accountNumber := Or(existing.accountNumber, incoming.accountNumber),
      bankName := Or(existing.bankName, incoming.bankName),
      periodCovered := Period(
        Or(FirstMonth(merged), existing.periodCovered.start),
        Or(LastMonth(merged), incoming.periodCovered.end)),
      monthlyData := merged,
      revenueAnalysis := incoming.revenueAnalysis.(estimatedMonthlyRevenue := AverageDeposits(merged)),
      redFlags := DedupBy(existing.redFlags + incoming.redFlags, FlagKey),
      insights := DedupBy(existing.insights + incoming.insights, InsightKey))
  }

  // ---------------------------------------------------------------------------
  // Invariants of a stored analysis

  predicate NonEmptyMonths(ms: seq<MonthlySnapshot>)
  {
    forall i :: 0 <= i < |ms| ==> ms[i].month != ""
  }

  /**
   * The data-model invariants: monthly data sorted, one snapshot per month,
   * month keys present, the period spanning the first to the last month, and
   * red flags and insights unique by their keys.
   */
  predicate WellFormed(a: AnalysisResult)
  {
    && SortedByMonth(a.monthlyData)
    && UniqueKeys(a.monthlyData, MonthOf)
    && NonEmptyMonths(a.monthlyData)
    && (|a.monthlyData| > 0 ==>
          a.periodCovered == Period(a.monthlyData[0].month, a.monthlyData[|a.monthlyData| - 1].month))
    && UniqueKeys(a.redFlags, FlagKey)
    && UniqueKeys(a.insights, InsightKey)
  }

  // ---------------------------------------------------------------------------
  // Monthly data

  lemma FilterKeepsPassing(s: seq<MonthlySnapshot>, keep: string -> bool, m: MonthlySnapshot)
    requires m in s && keep(m.month)
    ensures m in FilterByMonth(s, keep)
  {
    if s[0] != m { FilterKeepsPassing(s[1..], keep, m); }
  }

  /** A batch all of whose months are known contributes nothing. */
  lemma NoNewMonths(existing: seq<MonthlySnapshot>, incoming: seq<MonthlySnapshot>)
    requires KeySet(incoming, MonthOf) <= KeySet(existing, MonthOf)
    ensures NewMonths(existing, incoming) == []
  {
    var known := KeySet(existing, MonthOf);
    forall i | 0 <= i < |incoming| ensures incoming[i].month in known {
      assert MonthOf(incoming[i]) in KeySet(incoming, MonthOf);
    }
    FilterNoneKept(incoming, Unknown(known));
  }

  lemma FilterNoneKept(s: seq<MonthlySnapshot>, keep: string -> bool)
    requires forall i :: 0 <= i < |s| ==> !keep(s[i].month)
    ensures FilterByMonth(s, keep) == []
  {
    if s != [] {
      assert forall i :: 0 <= i < |s[1..]| ==> s[1..][i] == s[i + 1];
      FilterNoneKept(s[1..], keep);
    }
  }

  /** A snapshot of the new batch is taken over exactly when its month is new. */
  lemma NewMonthsMembership(existing: seq<MonthlySnapshot>, incoming: seq<MonthlySnapshot>, m: MonthlySnapshot)
    ensures m in NewMonths(existing, incoming) <==> m in incoming && m.month !in KeySet(existing, MonthOf)
  {
    var known := KeySet(existing, MonthOf);
    if m in incoming && m.month !in known {
      FilterKeepsPassing(incoming, Unknown(known), m);
    }
  }

  /**
   * First writer wins: the merged monthly data is a sorted permutation of the
   * existing snapshots followed by the new-month snapshots of the batch; so every
   * existing snapshot survives unchanged, and a snapshot of the batch for a
   * month the existing data already has is dropped.
   */
  lemma MergeMonthlyDataContents(existing: seq<MonthlySnapshot>, incoming: seq<MonthlySnapshot>)
    ensures multiset(MergeMonthlyData(existing, incoming)) == multiset(existing + NewMonths(existing, incoming))
    ensures SortedByMonth(MergeMonthlyData(existing, incoming))
    ensures forall m :: m in existing ==> m in MergeMonthlyData(existing, incoming)
    ensures forall m :: m in MergeMonthlyData(existing, incoming) <==>
      m in existing || (m in incoming && m.month !in KeySet(existing, MonthOf))
  {
    var merged := MergeMonthlyData(existing, incoming);
    var added := NewMonths(existing, incoming);
    SortByMonthFacts(existing + added);
    forall m ensures m in merged <==> m in existing || (m in incoming && m.month !in KeySet(existing, MonthOf)) {
      assert m in merged <==> m in multiset(existing + added);
      NewMonthsMembership(existing, incoming, m);
    }
  }

  /** The merge keeps the number of snapshots and the deposit total of existing plus new months. */
  lemma MergeMonthlyDataTotals(existing: seq<MonthlySnapshot>, incoming: seq<MonthlySnapshot>)
    ensures |MergeMonthlyData(existing, incoming)| == |existing| + |NewMonths(existing, incoming)|
    ensures TotalDeposits(MergeMonthlyData(existing, incoming)) ==
      TotalDeposits(existing) + TotalDeposits(NewMonths(existing, incoming))
  {
    SortByMonthFacts(existing + NewMonths(existing, incoming));
    TotalDepositsAppend(existing, NewMonths(existing, incoming));
  }

  /**
   * When neither side repeats a month, neither does the result, and its months
   * are the union of both sides' months.
   */
  lemma MergeMonthlyDataKeys(existing: seq<MonthlySnapshot>, incoming: seq<MonthlySnapshot>)
    ensures KeySet(MergeMonthlyData(existing, incoming), MonthOf) ==
      KeySet(existing, MonthOf) + KeySet(incoming, MonthOf)
    ensures UniqueKeys(existing, MonthOf) && UniqueKeys(incoming, MonthOf) ==>
      UniqueKeys(MergeMonthlyData(existing, incoming), MonthOf)
  {
    var known := KeySet(existing, MonthOf);
    var keep := Unknown(known);
    var added := FilterByMonth(incoming, keep);
    FilterKeys(incoming, keep);
    KeySetAppend(existing, added, MonthOf);
    SortByMonthKeys(existing + added);
    if UniqueKeys(existing, MonthOf) && UniqueKeys(incoming, MonthOf) {
      UniqueAppend(existing, added);
    }
  }

  /**
   * The merged data repeats no month exactly when the stored data repeats none
   * and the batch's snapshots for months not yet stored repeat none; batch
   * snapshots for stored months are dropped and cannot cause a repeat.
   */
  lemma MergeMonthlyDataUnique(existing: seq<MonthlySnapshot>, incoming: seq<MonthlySnapshot>)
    ensures UniqueKeys(MergeMonthlyData(existing, incoming), MonthOf) <==>
      UniqueKeys(existing, MonthOf) && UniqueKeys(NewMonths(existing, incoming), MonthOf)
  {
    var known := KeySet(existing, MonthOf);
    var added := NewMonths(existing, incoming);
    var c := existing + added;
    SortByMonthKeys(c);
    SortByMonthFacts(c);
    UniqueKeysCard(c, MonthOf);
    UniqueKeysCard(SortByMonth(c), MonthOf);
    if UniqueKeys(c, MonthOf) {
      forall i, j | 0 <= i < j < |existing| ensures MonthOf(existing[i]) != MonthOf(existing[j]) {
        assert c[i] == existing[i] && c[j] == existing[j];
      }
      forall i, j | 0 <= i < j < |added| ensures MonthOf(added[i]) != MonthOf(added[j]) {
        assert c[|existing| + i] == added[i] && c[|existing| + j] == added[j];
      }
    }
    if UniqueKeys(existing, MonthOf) && UniqueKeys(added, MonthOf) {
      FilterKeys(incoming, Unknown(known));
      UniqueAppend(existing, added);
    }
  }

  /** A batch repeating a month that is already stored is dropped whole, so the result repeats nothing. */
  lemma RepeatedStoredMonthDropped(s1: MonthlySnapshot, s2: MonthlySnapshot, s3: MonthlySnapshot)
    requires s1.month == s2.month == s3.month
    ensures !UniqueKeys([s2, s3], MonthOf)
    ensures MergeMonthlyData([s1], [s2, s3]) == [s1]
    ensures UniqueKeys(MergeMonthlyData([s1], [s2, s3]), MonthOf)
  {
    assert MonthOf([s2, s3][0]) == MonthOf([s2, s3][1]);
    var known := KeySet([s1], MonthOf);
    assert MonthOf([s1][0]) in known;
    forall k | k in KeySet([s2, s3], MonthOf) ensures k in known {
      var i :| 0 <= i < 2 && MonthOf([s2, s3][i]) == k;
    }
    NoNewMonths([s1], [s2, s3]);
    assert [s1] + [] == [s1] && [s1][1..] == [];
    assert SortByMonth([s1]) == Insert(s1, SortByMonth([])) == [s1];
  }

  /**
   * The months of the merged data that the stored analysis did not have are
   * exactly the new-month snapshots of the batch, in month order: the rows the
   * add-statements handler appends to the snapshot table are those.
   */
  lemma MergedUnknownMonths(existing: seq<MonthlySnapshot>, incoming: seq<MonthlySnapshot>)
    ensures FilterByMonth(MergeMonthlyData(existing, incoming), Unknown(KeySet(existing, MonthOf))) ==
      SortByMonth(NewMonths(existing, incoming))
  {
    var known := KeySet(existing, MonthOf);
    var keep := Unknown(known);
    var added := NewMonths(existing, incoming);
    FilterSortByMonth(existing + added, keep);
    FilterAppend(existing, added, keep);
    forall i | 0 <= i < |existing| ensures !keep(existing[i].month) {
      assert MonthOf(existing[i]) in known;
    }
    FilterNoneKept(existing, keep);
    FilterAllKept(added, keep);
    assert FilterByMonth(existing + added, keep) == added;
  }

  // ---------------------------------------------------------------------------
  // The merged record, field by field

  /**
   * The estimated monthly revenue is recomputed as the mean deposit over all
   * merged months (existing plus new), and 0 when there are none; every other
   * revenue figure is the new batch's.
   */
  lemma MergeRevenue(existing: AnalysisResult, incoming: AnalysisResult)
    ensures var r := MergeAnalysis(existing, incoming).revenueAnalysis;
      var added := NewMonths(existing.monthlyData, incoming.monthlyData);
      var n := |existing.monthlyData| + |added|;
      var total := TotalDeposits(existing.monthlyData) + TotalDeposits(added);
      && (n > 0 ==> r.estimatedMonthlyRevenue == total / (n as real))
      && (n == 0 ==> r.estimatedMonthlyRevenue == 0.0)
      && r.revenueGrowthPercent == incoming.revenueAnalysis.revenueGrowthPercent
      && r.primaryRevenueSources == incoming.revenueAnalysis.primaryRevenueSources
      && r.revenueConsistency == incoming.revenueAnalysis.revenueConsistency
  {
    var merged := MergeMonthlyData(existing.monthlyData, incoming.monthlyData);
    var added := NewMonths(existing.monthlyData, incoming.monthlyData);
    MergeMonthlyDataTotals(existing.monthlyData, incoming.monthlyData);
    var avg := AverageDeposits(merged);
    assert MergeAnalysis(existing, incoming).revenueAnalysis ==
      incoming.revenueAnalysis.(estimatedMonthlyRevenue := avg);
    assert |merged| == |existing.monthlyData| + |added|;
    assert TotalDeposits(merged) == TotalDeposits(existing.monthlyData) + TotalDeposits(added);
  }

  /** Identity fields: the existing value wins unless it is empty, in which case the new one is taken. */
  lemma MergeIdentity(existing: AnalysisResult, incoming: AnalysisResult)
    ensures var r := MergeAnalysis(existing, incoming);
      && (existing.businessName != "" ==> r.businessName == existing.businessName)
      && (existing.businessName == "" ==> r.businessName == incoming.businessName)
      && (existing.accountNumber != "" ==> r.accountNumber == existing.accountNumber)
      && (existing.accountNumber == "" ==> r.accountNumber == incoming.accountNumber)
      && (existing.bankName != "" ==> r.bankName == existing.bankName)
      && (existing.bankName == "" ==> r.bankName == incoming.bankName)
  {
  }

  /**
   * The period: when there are merged months (with non-empty keys), it runs from
   * the smallest to the largest month of existing and new data together; with
   * no merged months, the start is the existing start and the end the new end.
   */
  lemma MergePeriod(existing: AnalysisResult, incoming: AnalysisResult)
    ensures var r := MergeAnalysis(existing, incoming);
      var months := KeySet(existing.monthlyData, MonthOf) + KeySet(incoming.monthlyData, MonthOf);
      && (months == {} ==> r.periodCovered == Period(existing.periodCovered.start, incoming.periodCovered.end))
      && (months != {} && NonEmptyMonths(existing.monthlyData) && NonEmptyMonths(incoming.monthlyData) ==>
            && r.periodCovered.start in months && r.periodCovered.end in months
            && (forall k :: k in months ==> !Less(k, r.periodCovered.start) && !Less(r.periodCovered.end, k)))
  {
    var r := MergeAnalysis(existing, incoming);
    var merged := r.monthlyData;
    var months := KeySet(existing.monthlyData, MonthOf) + KeySet(incoming.monthlyData, MonthOf);
    MergeMonthlyDataKeys(existing.monthlyData, incoming.monthlyData);
    MergeMonthlyDataContents(existing.monthlyData, incoming.monthlyData);
    assert KeySet(merged, MonthOf) == months;
    if months == {} {
      KeySetEmpty(merged, MonthOf);
    } else if NonEmptyMonths(existing.monthlyData) && NonEmptyMonths(incoming.monthlyData) {
      var k0 :| k0 in months;
      var i0 :| 0 <= i0 < |merged| && MonthOf(merged[i0]) == k0;
      var first, last := merged[0], merged[|merged| - 1];
      assert first in existing.monthlyData || first in incoming.monthlyData;
      assert last in existing.monthlyData || last in incoming.monthlyData;
      assert first.month != "" && last.month != "";
      assert MonthOf(first) in KeySet(merged, MonthOf) && MonthOf(last) in KeySet(merged, MonthOf);
      forall k | k in months ensures !Less(k, r.periodCovered.start) && !Less(r.periodCovered.end, k) {
        var i :| 0 <= i < |merged| && MonthOf(merged[i]) == k;
        if i > 0 { assert !Less(merged[i].month, merged[0].month); } else { LessIrreflexive(k); }
        if i < |merged| - 1 { assert !Less(merged[|merged| - 1].month, merged[i].month); } else { LessIrreflexive(k); }
      }
    }
  }

  /**
   * Red flags: unique by (type, description), every key of either side present,
   * each kept flag the first occurrence of its key in existing-then-new order, and
   * those first occurrences in their original order; so on a tie the existing flag wins.
   */
  lemma MergeRedFlags(existing: AnalysisResult, incoming: AnalysisResult)
    ensures var r := MergeAnalysis(existing, incoming).redFlags;
      var all := existing.redFlags + incoming.redFlags;
      && UniqueKeys(r, FlagKey)
      && KeySet(r, FlagKey) == KeySet(existing.redFlags, FlagKey) + KeySet(incoming.redFlags, FlagKey)
      && (forall i :: 0 <= i < |r| ==> 0 <= FindIndex(all, FlagKey, FlagKey(r[i])) && r[i] == all[FindIndex(all, FlagKey, FlagKey(r[i]))])
      && (forall i, j :: 0 <= i < j < |r| ==> FindIndex(all, FlagKey, FlagKey(r[i])) < FindIndex(all, FlagKey, FlagKey(r[j])))
      && (forall i :: 0 <= i < |r| && FlagKey(r[i]) in KeySet(existing.redFlags, FlagKey) ==> r[i] in existing.redFlags)
  {
    var all := existing.redFlags + incoming.redFlags;
    var r := DedupBy(all, FlagKey);
    DedupByUniqueKeys(all, FlagKey);
    DedupByKeySet(all, FlagKey);
    DedupByFirstOccurrences(all, FlagKey);
    forall i | 0 <= i < |r| && FlagKey(r[i]) in KeySet(existing.redFlags, FlagKey) ensures r[i] in existing.redFlags {
      var j :| 0 <= j < |existing.redFlags| && FlagKey(existing.redFlags[j]) == FlagKey(r[i]);
      assert all[j] == existing.redFlags[j];
      var f := FindIndex(all, FlagKey, FlagKey(r[i]));
      assert f <= j;
      assert all[f] == existing.redFlags[f];
    }
    assert KeySet(all, FlagKey) == KeySet(existing.redFlags, FlagKey) + KeySet(incoming.redFlags, FlagKey) by {
      KeySetAppend(existing.redFlags, incoming.redFlags, FlagKey);
    }
  }

  /** Insights: the same guarantees as red flags, keyed by title. */
  lemma MergeInsights(existing: AnalysisResult, incoming: AnalysisResult)
    ensures var r := MergeAnalysis(existing, incoming).insights;
      var all := existing.insights + incoming.insights;
      && UniqueKeys(r, InsightKey)
      && KeySet(r, InsightKey) == KeySet(existing.insights, InsightKey) + KeySet(incoming.insights, InsightKey)
      && (forall i :: 0 <= i < |r| ==> 0 <= FindIndex(all, InsightKey, InsightKey(r[i])) && r[i] == all[FindIndex(all, InsightKey, InsightKey(r[i]))])
      && (forall i, j :: 0 <= i < j < |r| ==> FindIndex(all, InsightKey, InsightKey(r[i])) < FindIndex(all, InsightKey, InsightKey(r[j])))
      && (forall i :: 0 <= i < |r| && r[i].title in KeySet(existing.insights, InsightKey) ==> r[i] in existing.insights)
  {
    var all := existing.insights + incoming.insights;
    var r := DedupBy(all, InsightKey);
    DedupByUniqueKeys(all, InsightKey);
    DedupByKeySet(all, InsightKey);
    DedupByFirstOccurrences(all, InsightKey);
    forall i | 0 <= i < |r| && r[i].title in KeySet(existing.insights, InsightKey) ensures r[i] in existing.insights {
      var j :| 0 <= j < |existing.insights| && InsightKey(existing.insights[j]) == InsightKey(r[i]);
      assert all[j] == existing.insights[j];
      var f := FindIndex(all, InsightKey, InsightKey(r[i]));
      assert f <= j;
      assert all[f] == existing.insights[f];
    }
    assert KeySet(all, InsightKey) == KeySet(existing.insights, InsightKey) + KeySet(incoming.insights, InsightKey) by {
      KeySetAppend(existing.insights, incoming.insights, InsightKey);
    }
  }

  /** Sections taken wholesale from the new batch, not merged. */
  lemma MergeTakesNewSections(existing: AnalysisResult, incoming: AnalysisResult)
    ensures var r := MergeAnalysis(existing, incoming);
      && r.expenseAnalysis == incoming.expenseAnalysis
      && r.debtObligations == incoming.debtObligations
      && r.cashFlowHealth == incoming.cashFlowHealth
      && r.fundabilityAssessment == incoming.fundabilityAssessment
      && r.summary == incoming.summary
  {
  }

  // ---------------------------------------------------------------------------
  // Whole-record properties

  /** From inputs without repeated or empty months, the merge produces a record satisfying every data-model invariant. */
  lemma MergeWellFormed(existing: AnalysisResult, incoming: AnalysisResult)
    requires UniqueKeys(existing.monthlyData, MonthOf) && NonEmptyMonths(existing.monthlyData)
    requires UniqueKeys(incoming.monthlyData, MonthOf) && NonEmptyMonths(incoming.monthlyData)
    ensures WellFormed(MergeAnalysis(existing, incoming))
  {
    var r := MergeAnalysis(existing, incoming);
    MergeMonthlyDataContents(existing.monthlyData, incoming.monthlyData);
    MergeMonthlyDataKeys(existing.monthlyData, incoming.monthlyData);
    MergeRedFlags(existing, incoming);
    MergeInsights(existing, incoming);
    forall i | 0 <= i < |r.monthlyData| ensures r.monthlyData[i].month != "" {
      assert r.monthlyData[i] in existing.monthlyData || r.monthlyData[i] in incoming.monthlyData;
    }
  }

  /**
   * A batch whose months are all already present leaves the monthly data and the
   * period of a well-formed, non-empty existing analysis as they were; the
   * estimated revenue becomes the mean deposits of the stored months, which
   * need not be the estimate that was stored.
   */
  lemma MergeOverlapKeepsMonths(existing: AnalysisResult, incoming: AnalysisResult)
    requires WellFormed(existing) && |existing.monthlyData| > 0
    requires KeySet(incoming.monthlyData, MonthOf) <= KeySet(existing.monthlyData, MonthOf)
    ensures var r := MergeAnalysis(existing, incoming);
      && r.monthlyData == existing.monthlyData
      && r.periodCovered == existing.periodCovered
      && r.revenueAnalysis.estimatedMonthlyRevenue == AverageDeposits(existing.monthlyData)
  {
    var added := NewMonths(existing.monthlyData, incoming.monthlyData);
    NoNewMonths(existing.monthlyData, incoming.monthlyData);
    assert existing.monthlyData + added == existing.monthlyData;
    SortByMonthOfSorted(existing.monthlyData);
  }

  /** Merging the same batch's months a second time adds none. */
  lemma MergeMonthlyDataIdempotent(existing: seq<MonthlySnapshot>, incoming: seq<MonthlySnapshot>)
    ensures MergeMonthlyData(MergeMonthlyData(existing, incoming), incoming) == MergeMonthlyData(existing, incoming)
  {
    var merged := MergeMonthlyData(existing, incoming);
    MergeMonthlyDataKeys(existing, incoming);
    MergeMonthlyDataContents(existing, incoming);
    NoNewMonths(merged, incoming);
    assert merged + NewMonths(merged, incoming) == merged;
    SortByMonthOfSorted(merged);
  }

  /** Merging the same batch a second time changes nothing. */
  lemma MergeIdempotent(existing: AnalysisResult, incoming: AnalysisResult)
    ensures MergeAnalysis(MergeAnalysis(existing, incoming), incoming) == MergeAnalysis(existing, incoming)
  {
    MergeMonthlyDataIdempotent(existing.monthlyData, incoming.monthlyData);
    DedupByRepeat(existing.redFlags, incoming.redFlags, FlagKey);
    DedupByRepeat(existing.insights, incoming.insights, InsightKey);
  }
}
