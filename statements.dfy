/**
 * The statement routes of backend/src/routes/statements.ts: the upload
 * whitelist, storing uploaded files as statement rows, analysing stored
 * statements the caller owns, and the quick analysis that keeps the files of a
 * signed-in caller and deletes everybody else's. As in the report routes, the
 * extraction is the parameter `extract`.
 */
module Statements {
  import opened Wrappers
  import opened Http
  import opened Text
  import opened Analysis
  import opened Extraction
  import opened Store

  const AllowedTypes: seq<string> := ["application/pdf", "image/jpeg", "image/png", "image/gif", "image/webp"]
  const InvalidFileType := "Invalid file type. Only PDF and images are allowed."
  const NoFilesUploaded := "No files uploaded"
  const NoValidStatements := "No valid statements found"
  const AnalyzeFailed := "Failed to analyze statements"

  /** A file as the upload middleware stored it. */
  datatype UploadedFile = UploadedFile(originalName: string, path: string, mimeType: string, size: int)

  /** A statement in a response body (the upload timestamp is not modelled). */
  datatype StatementView = StatementView(id: string, fileName: string, fileType: string, fileSize: int)

  datatype AnalyzeReply = AnalyzeReply(analysis: AnalysisResult, analyzedStatements: seq<string>)

  datatype QuickReply = QuickReply(analysis: AnalysisResult, saved: bool)

  /** `fileFilter`: the upload is accepted exactly for the five whitelisted types. */
  function FileFilter(mimeType: string): (r: Result<bool>)
    ensures r.Ok? <==>
      mimeType == "application/pdf" || mimeType == "image/jpeg" || mimeType == "image/png" ||
      mimeType == "image/gif" || mimeType == "image/webp"
    ensures r.Ok? ==> r.value
    ensures r.Err? ==> r.message == InvalidFileType
  {
    if mimeType in AllowedTypes then Ok(true) else Err(InvalidFileType)
  }

  /**
   * Every file the whitelist lets through reaches the model: a PDF as a
   * document and any other accepted type as an image with that media type.
   */
  lemma AcceptedFileHasBlock(f: FileInput)
    requires FileFilter(f.fileType).Ok?
    ensures f.fileType == "application/pdf" ==> BlockFor(f) == Some(Document(f.filePath))
    ensures f.fileType != "application/pdf" ==> BlockFor(f) == Some(Image(f.fileType, f.filePath))
  {
    if f.fileType != "application/pdf" {
      assert f.fileType[..6] == "image/";
    }
  }

  /** A batch of accepted files yields exactly one request block per file, in order. */
  lemma AcceptedFilesHaveBlocks(files: seq<FileInput>)
    requires forall i :: 0 <= i < |files| ==> FileFilter(files[i].fileType).Ok?
    ensures |Blocks(files)| == |files|
    ensures forall i :: 0 <= i < |files| ==>
      Blocks(files)[i] ==
        if files[i].fileType == "application/pdf" then Document(files[i].filePath)
        else Image(files[i].fileType, files[i].filePath)
  {
    forall i | 0 <= i < |files| ensures BlockFor(files[i]).Some? {
      AcceptedFileHasBlock(files[i]);
    }
    BlocksOfClassified(files);
  }

  /** `files.map(f => ({ filePath: f.path, fileName: f.originalname, fileType: f.mimetype }))`. */
  function InputsOf(files: seq<UploadedFile>): seq<FileInput>
  {
    seq(|files|, i requires 0 <= i < |files| => FileInput(files[i].path, files[i].originalName, files[i].mimeType))
  }

  /** The statement row for each uploaded file, with its generated id. */
  function RowsFor(userId: string, files: seq<UploadedFile>, ids: seq<string>): seq<Statement>
    requires |ids| == |files|
  {
    seq(|files|, i requires 0 <= i < |files| =>
      Statement(ids[i], userId, files[i].originalName, files[i].path, files[i].mimeType, files[i].size))
  }

  function ViewsOf(rows: seq<Statement>): seq<StatementView>
  {
    seq(|rows|, i requires 0 <= i < |rows| => StatementView(rows[i].id, rows[i].fileName, rows[i].fileType, rows[i].fileSize))
  }

  /** The paths of the uploaded files. */
  function PathsOf(files: seq<UploadedFile>): set<string>
  {
    set i | 0 <= i < |files| :: files[i].path
  }

  /** After the first `i` rows are inserted, the next generated id is still unused. */
  lemma NextIdIsFresh(table: map<string, Statement>, userId: string, files: seq<UploadedFile>, ids: seq<string>, i: nat)
    requires |ids| == |files| && FreshIds(ids, table) && i < |files|
    ensures ids[i] !in WithRows(table, RowsFor(userId, files, ids)[..i])
  {
    var rows := RowsFor(userId, files, ids)[..i];
    WithRowsKeys(table, rows);
    forall j | 0 <= j < |rows| ensures IdsOf(rows)[j] != ids[i] {
      assert IdsOf(rows)[j] == ids[j];
    }
  }

  /** The `createStatement` loop: one row per file, in order, under the generated ids. */
  method InsertStatements(db: Database, userId: string, files: seq<UploadedFile>, ids: seq<string>)
    returns (rows: seq<Statement>)
    requires db.Valid() && |ids| == |files| && FreshIds(ids, db.statements)
    modifies db
    ensures db.Valid()
    ensures rows == RowsFor(userId, files, ids)
    ensures db.statements == WithRows(old(db.statements), rows)
    ensures db.users == old(db.users) && db.reports == old(db.reports) && db.snapshots == old(db.snapshots)
  {
    rows := [];
    var i := 0;
    while i < |files|
      invariant 0 <= i <= |files|
      invariant db.Valid()
      invariant rows == RowsFor(userId, files, ids)[..i]
      invariant db.statements == WithRows(old(db.statements), rows)
      invariant db.users == old(db.users) && db.reports == old(db.reports) && db.snapshots == old(db.snapshots)
    {
      var row := Statement(ids[i], userId, files[i].originalName, files[i].path, files[i].mimeType, files[i].size);
      NextIdIsFresh(old(db.statements), userId, files, ids, i);
      db.CreateStatement(row);
      assert (rows + [row])[..|rows|] == rows;
      rows := rows + [row];
      i := i + 1;
    }
  }

  /** The `unlinkSync` loop: each file still on disk is deleted. */
  method DeleteFiles(disk: Disk, files: seq<UploadedFile>)
    modifies disk
    ensures disk.paths == old(disk.paths) - PathsOf(files)
  {
    var i := 0;
    while i < |files|
      invariant 0 <= i <= |files|
      invariant disk.paths == old(disk.paths) - PathsOf(files[..i])
    {
      assert PathsOf(files[..i + 1]) == PathsOf(files[..i]) + {files[i].path} by {
        assert forall j :: 0 <= j < i ==> files[..i + 1][j] == files[..i][j];
      }
      disk.DeleteIfExists(files[i].path);
      i := i + 1;
    }
    assert files[..i] == files;
  }

  /** `POST /statements/upload`: one statement row per uploaded file, returned in upload order. */
  method Upload(db: Database, userId: string, files: seq<UploadedFile>, ids: seq<string>)
    returns (resp: Response<seq<StatementView>>)
    requires db.Valid() && |ids| == |files| && FreshIds(ids, db.statements)
    modifies db
    ensures db.Valid()
    ensures userId == "" ==> resp == Failure(401, NotAuthenticated) && unchanged(db)
    ensures userId != "" && files == [] ==> resp == Failure(400, NoFilesUploaded) && unchanged(db)
    ensures userId != "" && files != [] ==>
      var rows := RowsFor(userId, files, ids);
      && resp == Success(201, ViewsOf(rows))
      && db.statements == WithRows(old(db.statements), rows)
      && db.users == old(db.users) && db.reports == old(db.reports) && db.snapshots == old(db.snapshots)
  {
    if userId == "" {
      return Failure(401, NotAuthenticated);
    }
    if files == [] {
      return Failure(400, NoFilesUploaded);
    }
    var rows := InsertStatements(db, userId, files, ids);
    resp := Success(201, ViewsOf(rows));
  }

  /**
   * An upload creates exactly one row per file: the new rows are found under
   * the generated ids, carry the caller and the file's name, path, type and
   * size, and the earlier rows are untouched.
   */
  lemma UploadRows(table: map<string, Statement>, userId: string, files: seq<UploadedFile>, ids: seq<string>)
    requires |ids| == |files| && FreshIds(ids, table)
    ensures forall k :: k in WithRows(table, RowsFor(userId, files, ids)) <==> k in table || k in ids
    ensures forall i :: 0 <= i < |files| ==>
      WithRows(table, RowsFor(userId, files, ids))[ids[i]] ==
      Statement(ids[i], userId, files[i].originalName, files[i].path, files[i].mimeType, files[i].size)
    ensures forall k :: k in table ==> WithRows(table, RowsFor(userId, files, ids))[k] == table[k]
  {
    var rows := RowsFor(userId, files, ids);
    assert IdsOf(rows) == ids;
    WithRowsFacts(table, rows);
  }

  /**
   * `POST /statements/analyze`: the requested statements the caller owns are
   * analysed in request order, and the reply lists exactly their ids. Nothing
   * is written.
   */
  method Analyze(db: Database, userId: string, statementIds: Option<seq<string>>, extract: seq<FileInput> -> Result<AnalysisResult>)
    returns (resp: Response<AnalyzeReply>)
    ensures userId == "" ==> resp == Failure(401, NotAuthenticated)
    ensures userId != "" && !NonEmptyList(statementIds) ==> resp == Failure(400, StatementIdsRequired)
    ensures (userId != "" && NonEmptyList(statementIds) &&
      OwnedStatements(db.statements, userId, statementIds.value) == []) ==>
      resp == Failure(404, NoValidStatements)
    ensures (userId != "" && NonEmptyList(statementIds) &&
      OwnedStatements(db.statements, userId, statementIds.value) != []) ==>
      var owned := OwnedStatements(db.statements, userId, statementIds.value);
      var outcome := extract(FilesOf(owned));
      && (outcome.Err? ==> resp == Failure(500, AnalyzeFailed))
      && (outcome.Ok? ==> resp == Success(200, AnalyzeReply(outcome.value, IdsOf(owned))))
  {
    if userId == "" {
      return Failure(401, NotAuthenticated);
    }
    if !NonEmptyList(statementIds) {
      return Failure(400, StatementIdsRequired);
    }
    var owned := db.CollectOwned(userId, statementIds.value);
    if |owned| == 0 {
      return Failure(404, NoValidStatements);
    }
    var outcome := extract(FilesOf(owned));
    if outcome.Err? {
      return Failure(500, AnalyzeFailed);
    }
    resp := Success(200, AnalyzeReply(outcome.value, IdsOf(owned)));
  }

  /**
   * `POST /statements/quick-analyze`: the uploaded files are analysed; a
   * signed-in caller gets one statement row per file and keeps the files,
   * anybody else's files are deleted, and so are the files when the analysis
   * fails. `saved` says whether the caller was signed in.
   */
  method QuickAnalyze(
    db: Database, disk: Disk, userId: string, files: seq<UploadedFile>, ids: seq<string>,
    extract: seq<FileInput> -> Result<AnalysisResult>)
    returns (resp: Response<QuickReply>)
    requires db.Valid() && |ids| == |files| && FreshIds(ids, db.statements)
    modifies db, disk
    ensures db.Valid()
    ensures files == [] ==> resp == Failure(400, NoFilesUploaded) && unchanged(db) && unchanged(disk)
    ensures (files != [] && extract(InputsOf(files)).Err?) ==>
      resp == Failure(500, AnalyzeFailed) && unchanged(db) && disk.paths == old(disk.paths) - PathsOf(files)
    ensures (files != [] && extract(InputsOf(files)).Ok?) ==>
      && resp == Success(200, QuickReply(extract(InputsOf(files)).value, userId != ""))
      && (userId != "" ==>
            && db.statements == WithRows(old(db.statements), RowsFor(userId, files, ids))
            && db.users == old(db.users) && db.reports == old(db.reports) && db.snapshots == old(db.snapshots)
            && unchanged(disk))
      && (userId == "" ==> unchanged(db) && disk.paths == old(disk.paths) - PathsOf(files))
  {
    if files == [] {
      return Failure(400, NoFilesUploaded);
    }
    var outcome := extract(InputsOf(files));
    if outcome.Err? {
      DeleteFiles(disk, files);
      return Failure(500, AnalyzeFailed);
    }
    if userId != "" {
      var _ := InsertStatements(db, userId, files, ids);
    } else {
      DeleteFiles(disk, files);
    }
    resp := Success(200, QuickReply(outcome.value, userId != ""));
  }
}
