/**
 * The report routes of backend/src/routes/reports.ts that write: creating a
 * report from an analysis, and adding statements to a report, which merges the
 * stored analysis with the analysis of the new files. The extraction
 * (`analyzeStatements`, modelled by `Extraction.AnalyzeStatements`) is the
 * parameter `extract`: its outcome for the list of files it is given.
 */
module Reports {
  import opened Wrappers
  import opened Http
  import opened Dedup
  import opened Analysis
  import opened Months
  import opened Merge
  import opened Extraction
  import opened Store

  const AnalysisRequired := "Analysis data is required"
  const ReportNotFound := "Report not found"
  const NotAuthorizedToModify := "Not authorized to modify this report"
  const NoValidNewStatements := "No valid new statements found"
  const AddStatementsFailed := "Failed to add statements to report"

  /** The report in a response body (timestamps are not modelled). */
  datatype ReportView = ReportView(id: string, statementIds: seq<string>, analysis: AnalysisResult)

  /** A statement id is its own key. */
  function IdKey(id: string): string
  {
    id
  }

  /** `[...new Set([...existing, ...requested])]`. */
  function UnionIds(existing: seq<string>, requested: seq<string>): seq<string>
  {
    DedupBy(existing + requested, IdKey)
  }

  /**
   * The combined id list repeats no id, holds every stored and every requested
   * id (including requested ids that the ownership filter dropped), keeps the
   * first occurrence of each in order, and, when the stored list repeats none,
   * begins with the stored list unchanged.
   */
  lemma UnionIdsFacts(existing: seq<string>, requested: seq<string>)
    ensures forall i, j :: 0 <= i < j < |UnionIds(existing, requested)| ==>
      UnionIds(existing, requested)[i] != UnionIds(existing, requested)[j]
    ensures forall id :: id in UnionIds(existing, requested) <==> id in existing || id in requested
    ensures forall i, j :: 0 <= i < j < |UnionIds(existing, requested)| ==>
      FindIndex(existing + requested, IdKey, UnionIds(existing, requested)[i]) <
      FindIndex(existing + requested, IdKey, UnionIds(existing, requested)[j])
    ensures UniqueKeys(existing, IdKey) ==>
      |existing| <= |UnionIds(existing, requested)| && UnionIds(existing, requested)[..|existing|] == existing
  {
    var all := existing + requested;
    DedupByUniqueKeys(all, IdKey);
    DedupByFirstOccurrences(all, IdKey);
    UnionIdsMembers(existing, requested);
    if UniqueKeys(existing, IdKey) {
      DedupByKeepsUniquePrefix(existing, requested, IdKey);
    }
  }

  lemma UnionIdsMembers(existing: seq<string>, requested: seq<string>)
    ensures forall id :: id in UnionIds(existing, requested) <==> id in existing + requested
  {
    var all := existing + requested;
    var u := UnionIds(existing, requested);
    DedupByKeySet(all, IdKey);
    forall id ensures id in u <==> id in all {
      IdKeySet(u, id);
      IdKeySet(all, id);
    }
  }

  /** With the identity key, the key set is the set of elements. */
  lemma IdKeySet(s: seq<string>, id: string)
    ensures id in s <==> id in KeySet(s, IdKey)
  {
    if id in s {
      var i :| 0 <= i < |s| && s[i] == id;
      assert IdKey(s[i]) in KeySet(s, IdKey);
    }
  }

  /** `statementIds` passed validation and the caller owns the report. */
  predicate MayModify(reports: map<string, Report>, userId: string, reportId: string, requested: Option<seq<string>>)
  {
    userId != "" && NonEmptyList(requested) && reportId in reports && reports[reportId].userId == userId
  }

  /** `POST /reports`: stores the report and one snapshot row per month of its analysis. */
  method CreateReport(
    db: Database, userId: string, reportId: string,
    statementIds: Option<seq<string>>, analysis: Option<AnalysisResult>)
    returns (resp: Response<ReportView>)
    requires db.Valid() && reportId !in db.reports
    modifies db
    ensures db.Valid()
    ensures userId == "" ==> resp == Failure(401, NotAuthenticated) && unchanged(db)
    ensures userId != "" && analysis.None? ==> resp == Failure(400, AnalysisRequired) && unchanged(db)
    ensures userId != "" && analysis.Some? ==>
      var ids := if statementIds.Some? then statementIds.value else [];
      && resp == Success(201, ReportView(reportId, ids, analysis.value))
      && db.reports == old(db.reports)[reportId := Report(reportId, userId, ids, analysis.value)]
      && db.snapshots == old(db.snapshots) + SnapshotRows(userId, reportId, analysis.value.monthlyData)
      && db.users == old(db.users) && db.statements == old(db.statements)
  {
    if userId == "" {
      return Failure(401, NotAuthenticated);
    }
    if analysis.None? {
      return Failure(400, AnalysisRequired);
    }
    var ids := if statementIds.Some? then statementIds.value else [];
    db.CreateReport(Report(reportId, userId, ids, analysis.value));
    var months := analysis.value.monthlyData;
    var i := 0;
    while i < |months|
      invariant 0 <= i <= |months|
      invariant db.Valid()
      invariant db.reports == old(db.reports)[reportId := Report(reportId, userId, ids, analysis.value)]
      invariant db.snapshots == old(db.snapshots) + SnapshotRows(userId, reportId, months[..i])
      invariant db.users == old(db.users) && db.statements == old(db.statements)
    {
      assert months[..i + 1] == months[..i] + [months[i]];
      SnapshotRowsAppend(userId, reportId, months[..i], [months[i]]);
      db.CreateMonthlySnapshot(SnapshotRow(userId, reportId, months[i]));
      i := i + 1;
    }
    assert months[..i] == months;
    resp := Success(201, ReportView(reportId, ids, analysis.value));
  }

  /**
   * `POST /reports/:id/add-statements`. Validation and the ownership checks
   * come first and change nothing; the requested statements the caller owns
   * are analysed and merged into the stored analysis; the report's analysis
   * and id list are overwritten, and a snapshot row is appended for each
   * merged month the stored analysis did not have. A failed extraction
   * answers 500 before anything is written.
   */
  method AddStatements(
    db: Database, userId: string, reportId: string,
    requested: Option<seq<string>>, extract: seq<FileInput> -> Result<AnalysisResult>)
    returns (resp: Response<ReportView>)
    requires db.Valid()
    modifies db
    ensures db.Valid()
    ensures userId == "" ==> resp == Failure(401, NotAuthenticated) && unchanged(db)
    ensures userId != "" && !NonEmptyList(requested) ==>
      resp == Failure(400, StatementIdsRequired) && unchanged(db)
    ensures userId != "" && NonEmptyList(requested) && reportId !in old(db.reports) ==>
      resp == Failure(404, ReportNotFound) && unchanged(db)
    ensures (userId != "" && NonEmptyList(requested) && reportId in old(db.reports) &&
      old(db.reports)[reportId].userId != userId) ==>
      resp == Failure(403, NotAuthorizedToModify) && unchanged(db)
    ensures (MayModify(old(db.reports), userId, reportId, requested) &&
      OwnedStatements(old(db.statements), userId, requested.value) == []) ==>
      resp == Failure(404, NoValidNewStatements) && unchanged(db)
    ensures (MayModify(old(db.reports), userId, reportId, requested) &&
      OwnedStatements(old(db.statements), userId, requested.value) != []) ==>
      var files := FilesOf(OwnedStatements(old(db.statements), userId, requested.value));
      var report := old(db.reports)[reportId];
      (extract(files).Err? ==> resp == Failure(500, AddStatementsFailed) && unchanged(db)) &&
      (extract(files).Ok? ==>
        var merged := MergeAnalysis(report.analysis, extract(files).value);
        var ids := UnionIds(report.statementIds, requested.value);
        var known := KeySet(report.analysis.monthlyData, MonthOf);
        && resp == Success(200, ReportView(reportId, ids, merged))
        && db.reports == old(db.reports)[reportId := report.(analysis := merged, statementIds := ids)]
        && db.snapshots == old(db.snapshots) +
             SnapshotRows(userId, reportId, FilterByMonth(merged.monthlyData, Unknown(known)))
        && db.users == old(db.users) && db.statements == old(db.statements))
  {
    if userId == "" {
      return Failure(401, NotAuthenticated);
    }
    if !NonEmptyList(requested) {
      return Failure(400, StatementIdsRequired);
    }
    var found := db.FindReport(reportId);
    if found.None? {
      return Failure(404, ReportNotFound);
    }
    var report := found.value;
    if report.userId != userId {
      return Failure(403, NotAuthorizedToModify);
    }
    var owned := db.CollectOwned(userId, requested.value);
    var files := FilesOf(owned);
    if |files| == 0 {
      return Failure(404, NoValidNewStatements);
    }
    var extracted := extract(files);
    if extracted.Err? {
      return Failure(500, AddStatementsFailed);
    }
    var merged := MergeAnalysis(report.analysis, extracted.value);
    var ids := UnionIds(report.statementIds, requested.value);
    db.UpdateReport(report.id, merged, ids);

    var known := KeySet(report.analysis.monthlyData, MonthOf);
    AppendNewSnapshots(db, userId, reportId, merged.monthlyData, known);
    resp := Success(200, ReportView(reportId, ids, merged));
  }

  /** The snapshot loop of add-statements: one row per month not in `known`, in order. */
  method AppendNewSnapshots(db: Database, userId: string, reportId: string, months: seq<MonthlySnapshot>, known: set<string>)
    modifies db
    ensures db.snapshots == old(db.snapshots) + SnapshotRows(userId, reportId, FilterByMonth(months, Unknown(known)))
    ensures db.users == old(db.users) && db.statements == old(db.statements) && db.reports == old(db.reports)
  {
    var i := 0;
    while i < |months|
      invariant 0 <= i <= |months|
      invariant db.snapshots == old(db.snapshots) + SnapshotRows(userId, reportId, FilterByMonth(months[..i], Unknown(known)))
      invariant db.users == old(db.users) && db.statements == old(db.statements) && db.reports == old(db.reports)
    {
      SnapshotStep(userId, reportId, months, i, known);
      if months[i].month !in known {
        db.CreateMonthlySnapshot(SnapshotRow(userId, reportId, months[i]));
      }
      i := i + 1;
    }
    assert months[..i] == months;
  }

  /** One more month of the loop adds its row exactly when the month is not in `known`. */
  lemma SnapshotStep(userId: string, reportId: string, months: seq<MonthlySnapshot>, i: nat, known: set<string>)
    requires i < |months|
    ensures SnapshotRows(userId, reportId, FilterByMonth(months[..i + 1], Unknown(known)))
         == SnapshotRows(userId, reportId, FilterByMonth(months[..i], Unknown(known)))
            + (if months[i].month !in known then [SnapshotRow(userId, reportId, months[i])] else [])
  {
    assert months[..i + 1] == months[..i] + [months[i]];
    FilterAppend(months[..i], [months[i]], Unknown(known));
    SnapshotRowsAppend(userId, reportId, FilterByMonth(months[..i], Unknown(known)), FilterByMonth([months[i]], Unknown(known)));
    assert FilterByMonth([months[i]], Unknown(known)) == if months[i].month !in known then [months[i]] else [];
  }

  /**
   * The snapshot rows add-statements appends are exactly the batch's snapshots
   * for months the report did not have, sorted by month; in particular no
   * appended row repeats a month the report already had.
   */
  lemma AppendedSnapshotMonths(existing: AnalysisResult, incoming: AnalysisResult)
    ensures
      var known := KeySet(existing.monthlyData, MonthOf);
      var appended := FilterByMonth(MergeAnalysis(existing, incoming).monthlyData, Unknown(known));
      && appended == SortByMonth(NewMonths(existing.monthlyData, incoming.monthlyData))
      && forall i :: 0 <= i < |appended| ==> appended[i].month !in known
  {
    MergedUnknownMonths(existing.monthlyData, incoming.monthlyData);
  }
}
