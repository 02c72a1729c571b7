/**
 * The tables of the SQLite database (backend/src/models/database.ts) as an
 * object whose fields the route handlers update: keyed tables are maps from
 * primary key to row, and `monthly_snapshots`, which has no uniqueness
 * constraint on (user, report, month), is an append-only sequence. The
 * uploaded files on disk are a set of paths.
 */
module Store {
  import opened Wrappers
  import opened Analysis
  import opened Extraction

  datatype User = User(id: string, email: string, passwordHash: string, businessName: Option<string>, phone: Option<string>)

  datatype Statement = Statement(id: string, userId: string, fileName: string, filePath: string, fileType: string, fileSize: int)

  /** A report row; `statement_ids` and `analysis_data` are stored as JSON text, here as the values they encode. */
  datatype Report = Report(id: string, userId: string, statementIds: seq<string>, analysis: AnalysisResult)

  /** A `monthly_snapshots` row without its random id and its timestamp. */
  datatype SnapshotRow = SnapshotRow(userId: string, reportId: string, data: MonthlySnapshot)

  /** One snapshot row per month of `ms`, in order, tagged with the owner and the report. */
  function SnapshotRows(userId: string, reportId: string, ms: seq<MonthlySnapshot>): seq<SnapshotRow>
  {
    seq(|ms|, i requires 0 <= i < |ms| => SnapshotRow(userId, reportId, ms[i]))
  }

  lemma SnapshotRowsAppend(userId: string, reportId: string, a: seq<MonthlySnapshot>, b: seq<MonthlySnapshot>)
    ensures SnapshotRows(userId, reportId, a + b) == SnapshotRows(userId, reportId, a) + SnapshotRows(userId, reportId, b)
  {
  }

  /**
   * `for (const id of ids) { const s = findStatementById.get(id); if (s && s.user_id === userId) push(s) }`
   * as a value: the requested statements that exist and belong to `userId`, in request order.
   */
  function OwnedStatements(table: map<string, Statement>, userId: string, ids: seq<string>): seq<Statement>
  {
    if ids == [] then []
    else
      var id := ids[|ids| - 1];
      OwnedStatements(table, userId, ids[..|ids| - 1]) +
      (if id in table && table[id].userId == userId then [table[id]] else [])
  }

  /** The requested statements that exist and belong to the caller, and only those, are kept. */
  lemma {:induction false} OwnedStatementsMembership(table: map<string, Statement>, userId: string, ids: seq<string>, s: Statement)
    ensures s in OwnedStatements(table, userId, ids) <==>
      s.userId == userId && exists i :: 0 <= i < |ids| && ids[i] in table && table[ids[i]] == s
  {
    if ids != [] {
      var init := ids[..|ids| - 1];
      OwnedStatementsMembership(table, userId, init, s);
      if s.userId == userId && (exists i :: 0 <= i < |ids| && ids[i] in table && table[ids[i]] == s) {
        var i :| 0 <= i < |ids| && ids[i] in table && table[ids[i]] == s;
        if i < |ids| - 1 { assert init[i] == ids[i]; }
      }
      if exists i :: 0 <= i < |init| && init[i] in table && table[init[i]] == s {
        var i :| 0 <= i < |init| && init[i] in table && table[init[i]] == s;
        assert ids[i] == init[i];
      }
    }
  }

  /** The filter works id by id, so it keeps request order: filtering a concatenation concatenates the results. */
  lemma {:induction false} OwnedStatementsAppend(table: map<string, Statement>, userId: string, a: seq<string>, b: seq<string>)
    ensures OwnedStatements(table, userId, a + b) == OwnedStatements(table, userId, a) + OwnedStatements(table, userId, b)
    decreases |b|
  {
    if b == [] {
      assert a + b == a;
    } else {
      var b' := b[..|b| - 1];
      assert (a + b)[..|a + b| - 1] == a + b';
      assert (a + b)[|a + b| - 1] == b[|b| - 1];
      OwnedStatementsAppend(table, userId, a, b');
    }
  }

  /** Every kept statement belongs to the caller and is the stored row for its id. */
  lemma {:induction false} OwnedStatementsAreOwned(table: map<string, Statement>, userId: string, ids: seq<string>)
    ensures forall i :: 0 <= i < |OwnedStatements(table, userId, ids)| ==>
      OwnedStatements(table, userId, ids)[i].userId == userId &&
      OwnedStatements(table, userId, ids)[i] in table.Values
  {
    if ids != [] {
      OwnedStatementsAreOwned(table, userId, ids[..|ids| - 1]);
    }
  }

  /** A stored statement as the input of the extraction. */
  function FileOf(s: Statement): FileInput
  {
    FileInput(s.filePath, s.fileName, s.fileType)
  }

  /** `statements.map(s => ({ filePath, fileName, fileType }))`: one input per statement, in order. */
  function FilesOf(ss: seq<Statement>): (files: seq<FileInput>)
    ensures |files| == |ss|
    ensures forall i :: 0 <= i < |ss| ==>
      files[i].filePath == ss[i].filePath && files[i].fileName == ss[i].fileName && files[i].fileType == ss[i].fileType
  {
    if ss == [] then [] else [FileOf(ss[0])] + FilesOf(ss[1..])
  }

  /** `statements.map(s => s.id)`. */
  function IdsOf(ss: seq<Statement>): (ids: seq<string>)
    ensures |ids| == |ss|
    ensures forall i :: 0 <= i < |ss| ==> ids[i] == ss[i].id
  {
    if ss == [] then [] else IdsOf(ss[..|ss| - 1]) + [ss[|ss| - 1].id]
  }

  /** The ids are pairwise distinct and none is a key of `table` yet, as freshly generated UUIDs are. */
  predicate FreshIds<V>(ids: seq<string>, table: map<string, V>)
  {
    && (forall i, j :: 0 <= i < j < |ids| ==> ids[i] != ids[j])
    && (forall i :: 0 <= i < |ids| ==> ids[i] !in table)
  }

  /** The statements table after inserting `rows` one by one. */
  function WithRows(table: map<string, Statement>, rows: seq<Statement>): map<string, Statement>
  {
    if rows == [] then table
    else WithRows(table, rows[..|rows| - 1])[rows[|rows| - 1].id := rows[|rows| - 1]]
  }

  /** Inserting rows adds exactly their ids as keys. */
  lemma {:induction false} WithRowsKeys(table: map<string, Statement>, rows: seq<Statement>)
    ensures forall k :: k in WithRows(table, rows) <==> k in table || k in IdsOf(rows)
  {
    if rows != [] {
      var init := rows[..|rows| - 1];
      assert IdsOf(rows) == IdsOf(init) + [rows[|rows| - 1].id];
      WithRowsKeys(table, init);
    }
  }

  /** Rows whose ids are not keys of `table` leave every earlier row as it was. */
  lemma {:induction false} WithRowsKeeps(table: map<string, Statement>, rows: seq<Statement>)
    requires forall i :: 0 <= i < |rows| ==> rows[i].id !in table
    ensures forall k :: k in table ==> k in WithRows(table, rows) && WithRows(table, rows)[k] == table[k]
  {
    if rows != [] {
      var init := rows[..|rows| - 1];
      forall i | 0 <= i < |init| ensures init[i].id !in table {
        assert init[i] == rows[i];
      }
      WithRowsKeeps(table, init);
    }
  }

  /** Rows with pairwise distinct ids are each found under their own id. */
  lemma {:induction false} WithRowsFinds(table: map<string, Statement>, rows: seq<Statement>)
    requires forall i, j :: 0 <= i < j < |rows| ==> rows[i].id != rows[j].id
    ensures forall i :: 0 <= i < |rows| ==> rows[i].id in WithRows(table, rows) && WithRows(table, rows)[rows[i].id] == rows[i]
  {
    if rows != [] {
      var init := rows[..|rows| - 1];
      var last := rows[|rows| - 1];
      forall i, j | 0 <= i < j < |init| ensures init[i].id != init[j].id {
        assert init[i] == rows[i] && init[j] == rows[j];
      }
      WithRowsFinds(table, init);
      forall i | 0 <= i < |rows| ensures WithRows(table, rows)[rows[i].id] == rows[i] {
        if i < |init| {
          assert init[i] == rows[i];
          assert rows[i].id != last.id;
        }
      }
    }
  }

  /**
   * Inserting rows with fresh, distinct ids adds exactly those keys, finds each
   * new row under its id and leaves every earlier row as it was.
   */
  lemma WithRowsFacts(table: map<string, Statement>, rows: seq<Statement>)
    requires FreshIds(IdsOf(rows), table)
    ensures forall k :: k in WithRows(table, rows) <==> k in table || k in IdsOf(rows)
    ensures forall i :: 0 <= i < |rows| ==> WithRows(table, rows)[rows[i].id] == rows[i]
    ensures forall k :: k in table ==> WithRows(table, rows)[k] == table[k]
  {
    var ids := IdsOf(rows);
    forall i, j | 0 <= i < j < |rows| ensures rows[i].id != rows[j].id {
      assert ids[i] != ids[j];
    }
    forall i | 0 <= i < |rows| ensures rows[i].id !in table {
      assert ids[i] !in table;
    }
    WithRowsKeys(table, rows);
    WithRowsKeeps(table, rows);
    WithRowsFinds(table, rows);
  }

  class Database {
    var users: map<string, User>
    var statements: map<string, Statement>
    var reports: map<string, Report>
    var snapshots: seq<SnapshotRow>

    /** Every keyed row is stored under its own id. */
    ghost predicate Valid()
      reads this
    {
      && (forall k :: k in users ==> users[k].id == k)
      && (forall k :: k in statements ==> statements[k].id == k)
      && (forall k :: k in reports ==> reports[k].id == k)
    }

    constructor ()
      ensures Valid()
      ensures users == map[] && statements == map[] && reports == map[] && snapshots == []
    {
      users, statements, reports, snapshots := map[], map[], map[], [];
    }

    /** `findStatementById.get(id)`. */
    function FindStatement(id: string): (r: Option<Statement>)
      reads this
      ensures r.Some? <==> id in statements
      ensures r.Some? ==> r.value == statements[id]
      ensures Valid() && r.Some? ==> r.value.id == id
    {
      if id in statements then Some(statements[id]) else None
    }

    /** `findReportById.get(id)`. */
    function FindReport(id: string): (r: Option<Report>)
      reads this
      ensures r.Some? <==> id in reports
      ensures r.Some? ==> r.value == reports[id]
      ensures Valid() && r.Some? ==> r.value.id == id
    {
      if id in reports then Some(reports[id]) else None
    }

    /** `findUserById.get(id)`. */
    function FindUser(id: string): (r: Option<User>)
      reads this
      ensures r.Some? <==> id in users
      ensures r.Some? ==> r.value == users[id]
      ensures Valid() && r.Some? ==> r.value.id == id
    {
      if id in users then Some(users[id]) else None
    }

    /** `createStatement.run(...)`; the ids are fresh UUIDs, so the primary key is new. */
    method CreateStatement(row: Statement)
      requires Valid() && row.id !in statements
      modifies this
      ensures Valid()
      ensures statements == old(statements)[row.id := row]
      ensures users == old(users) && reports == old(reports) && snapshots == old(snapshots)
      ensures FindStatement(row.id) == Some(row)
      ensures forall k :: k != row.id ==> FindStatement(k) == old(FindStatement(k))
    {
      statements := statements[row.id := row];
    }

    /** `createReport.run(...)`; the id is a fresh UUID. */
    method CreateReport(row: Report)
      requires Valid() && row.id !in reports
      modifies this
      ensures Valid()
      ensures reports == old(reports)[row.id := row]
      ensures users == old(users) && statements == old(statements) && snapshots == old(snapshots)
      ensures FindReport(row.id) == Some(row)
      ensures forall k :: k != row.id ==> FindReport(k) == old(FindReport(k))
    {
      reports := reports[row.id := row];
    }

    /** `updateReport.run(analysis, statementIds, id)`: overwrites those two columns of one row. */
    method UpdateReport(id: string, analysis: AnalysisResult, statementIds: seq<string>)
      requires Valid() && id in reports
      modifies this
      ensures Valid()
      ensures reports == old(reports)[id := old(reports)[id].(analysis := analysis, statementIds := statementIds)]
      ensures users == old(users) && statements == old(statements) && snapshots == old(snapshots)
      ensures FindReport(id) == Some(old(reports)[id].(analysis := analysis, statementIds := statementIds))
      ensures FindReport(id).value.id == id && FindReport(id).value.userId == old(reports)[id].userId
      ensures forall k :: k != id ==> FindReport(k) == old(FindReport(k))
    {
      reports := reports[id := reports[id].(analysis := analysis, statementIds := statementIds)];
    }

    /** `createMonthlySnapshot.run(...)`: appends a row; nothing prevents a second row for the same month. */
    method CreateMonthlySnapshot(row: SnapshotRow)
      modifies this
      ensures snapshots == old(snapshots) + [row]
      ensures users == old(users) && statements == old(statements) && reports == old(reports)
    {
      snapshots := snapshots + [row];
    }

    /** The lookup loop shared by `/analyze` and add-statements: the requested statements the caller owns, in order. */
    method CollectOwned(userId: string, ids: seq<string>) returns (owned: seq<Statement>)
      ensures owned == OwnedStatements(statements, userId, ids)
    {
      owned := [];
      var i := 0;
      while i < |ids|
        invariant 0 <= i <= |ids|
        invariant owned == OwnedStatements(statements, userId, ids[..i])
      {
        assert ids[..i + 1][..i] == ids[..i];
        var statement := FindStatement(ids[i]);
        if statement.Some? && statement.value.userId == userId {
          owned := owned + [statement.value];
        }
        i := i + 1;
      }
      assert ids[..i] == ids;
    }
  }

  /** The upload directory: the paths of the files present on disk. */
  class Disk {
    var paths: set<string>

    constructor (paths: set<string>)
      ensures this.paths == paths
    {
      this.paths := paths;
    }

    /** `if (fs.existsSync(p)) fs.unlinkSync(p)`. */
    method DeleteIfExists(path: string)
      modifies this
      ensures paths == old(paths) - {path}
    {
      if path in paths {
        paths := paths - {path};
      }
    }
  }
}
