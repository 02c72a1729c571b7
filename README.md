# Merchant statement report: merge engine and bookkeeping, in Dafny

The merchant-statement-report backend lets a business upload bank statements
(PDFs and images). A remote model extracts an `AnalysisResult` from them: monthly
snapshots, revenue, expenses, debt, cash-flow health, fundability, red flags
and insights. The backend stores this analysis as a report. This project
models the parts of the backend that decide what is stored and returned:

- **The analysis merge engine** (`mergeAnalysisWithExisting`). When statements
  are added to a report, it combines the stored analysis with the analysis of
  the new batch. Months are merged first-writer-wins and stably sorted by
  month. The mean monthly deposit is recomputed. Identity fields fall back with
  JavaScript `||`. The covered period is recomputed. Red flags and insights are
  deduplicated by key, keeping first occurrences. Every other section is taken
  from the new batch. Modules `Merge`, `Months`, `Dedup`, `Analysis`.
- **The extraction adapter** (`analyzeStatements`) minus the remote call. It
  covers the loop that turns files into request blocks, the three error paths,
  and the stripping of markdown code fences from the reply before it is parsed
  as JSON. The model call and `JSON.parse` are function parameters. Module
  `Extraction`, with JavaScript `trim` and `split(' ')` in `Text`.
- **The report routes that write** (`POST /reports`,
  `POST /reports/:id/add-statements`). They validate the request and filter
  the requested statements by ownership. Add-statements computes the
  order-preserving union of statement ids and overwrites the report row. Both
  append snapshot rows: creation writes one per month; add-statements writes
  one per month the stored analysis lacked. Modules `Reports` and `Store`.
- **The statement routes** (`fileFilter`, upload, `/analyze`,
  `/quick-analyze`). `fileFilter` is the MIME whitelist. Quick-analyze keeps
  a signed-in caller's files as statement rows and deletes everyone else's.
  Module `Statements`.
- **The bearer-token middleware** (`verifyToken`, `authMiddleware`,
  `optionalAuthMiddleware`). JWT verification is a function parameter. Module
  `Auth`.

Each table the handlers touch is a field of the `Store.Database` class:
- users, statements and reports are maps from primary key to row;
- `monthly_snapshots` is an append-only sequence, because the schema has no
  uniqueness constraint on (user, report, month).

The upload directory is a `Store.Disk` object holding a set of paths. Handlers
are methods that modify these objects, and their postconditions state the
whole new state. Everything they compute is defined by functions. The lemmas
prove the promised properties of those functions.

Conventions:
- A missing header, a missing `req.userId`, and a `null` identity field are
  all the empty string. The source tests each of them with JavaScript
  truthiness, so `""` behaves the same way there.
- A request field that must be a non-empty array (`statementIds`) is an
  `Option<seq<string>>`. `None` stands for "missing or not an array".
- Money is `real`. The mean deposit is exact division, with no IEEE rounding.
- Months are ordered by ordinal string order. `localeCompare` agrees with it
  on the fixed-width `YYYY-MM` keys the data uses.
- Generated UUIDs are method parameters, required to be distinct and new to
  their table.

Behaviour of the code that the model keeps, deliberately:
- New months are checked only against the stored months. Two snapshots for
  one new month in the same batch both survive the merge, and both get
  snapshot rows.
- Deduplicating flags and insights also removes duplicates that were already
  inside the stored analysis.
- The report's statement-id list includes requested ids that failed the
  ownership filter.
- A statement requested twice is analysed twice.
- The stored analysis may have no months. Both fallbacks of the period are
  modelled: the stored start and the new end.
- The merged monthly data repeats a month when the stored data repeats one,
  or when the batch repeats a month the stored data lacks; a batch that
  repeats a stored month is dropped and causes no repeat
  (`Merge.MergeMonthlyDataUnique`, `Merge.RepeatedStoredMonthDropped`).
  `Merge.MergeWellFormed` assumes neither input repeats a month.
- The snapshot step skips months the stored analysis already had, not months
  that already have a snapshot row for the (owner, report) pair.
- The estimated monthly revenue is recomputed on every merge as the mean
  deposits of the merged months. The first merge after a report is created
  therefore replaces the estimate the analysis came with, even when the batch
  brings no new month.

## Model

| member | source | states |
|---|---|---|
| Merge.MergeMonthlyDataContents | backend/src/services/claudeService.ts:228-233 | Merged monthly data is a sorted permutation of the stored snapshots followed by the new batch's snapshots for months not already stored. Every stored snapshot survives unchanged. A snapshot is in the result iff it is stored, or comes from the batch with an unknown month. |
| Merge.NewMonthsMembership | backend/src/services/claudeService.ts:228-232 | A batch snapshot is taken over iff its month is not among the stored months. Duplicates inside the batch are not filtered. |
| Merge.MergeMonthlyDataKeys | backend/src/services/claudeService.ts:228-233 | The merged months are the union of stored and new months. If neither input repeats a month, the result does not repeat one. |
| Merge.MergeMonthlyDataUnique | backend/src/services/claudeService.ts:228-233 | The merged data repeats no month iff the stored data repeats none and the batch's snapshots for months not yet stored repeat none. |
| Merge.RepeatedStoredMonthDropped | backend/src/services/claudeService.ts:228-233 | A batch of two snapshots for a month already stored is dropped whole: the merge returns the stored data, which repeats nothing, although the batch repeats a month. |
| Merge.MergeMonthlyDataTotals | backend/src/services/claudeService.ts:229-236 | Merged length is the stored count plus the new-month count. Total deposits are the stored total plus the new months' total. |
| Merge.AverageDeposits | backend/src/services/claudeService.ts:236-238 | The mean times the month count equals the deposit total. With no months it is 0, with no division by zero. |
| Merge.MergeRevenue | backend/src/services/claudeService.ts:236-238 | `estimatedMonthlyRevenue` is the total deposits of the stored plus new months divided by their count, or 0 with no months. The other revenue fields are the new batch's. |
| Merge.MergeIdentity | backend/src/services/claudeService.ts:243-245 | Business name, account number and bank name keep the stored value unless it is empty, then take the new one. |
| Merge.MergePeriod | backend/src/services/claudeService.ts:246-249 | With merged months, the period runs from the smallest to the largest month of both inputs. With none, start falls back to the stored start and end to the new end. |
| Merge.MergeRedFlags | backend/src/services/claudeService.ts:255-258 | Flags are unique by (type, description), and every input key is present. Each kept flag is the first occurrence of its key in stored-then-new order, in that order. On a tie the stored flag wins. |
| Merge.MergeInsights | backend/src/services/claudeService.ts:259-262 | The same as for flags, keyed by title. |
| Merge.MergeTakesNewSections | backend/src/services/claudeService.ts:240-242 | Expense, debt, cash-flow, fundability and summary are the new batch's, unchanged. |
| Merge.MergeWellFormed | backend/src/services/claudeService.ts:228-262 | From inputs that repeat no month and have no empty month key, the merge yields a record that is sorted, repeats no month, and has its period equal to its first and last months. Its flags and insights repeat no key. |
| Merge.MergeOverlapKeepsMonths | backend/src/services/claudeService.ts:228-249 | A batch whose months are all stored leaves the monthly data and the period of a well-formed, non-empty stored analysis unchanged. The estimated revenue becomes the mean deposits of the stored months, which need not be the stored estimate. |
| Merge.MergeIdempotent | backend/src/services/claudeService.ts:228-262 | Merging the same batch a second time changes nothing. |
| Merge.MergedUnknownMonths | backend/src/services/claudeService.ts:228-233 | The merged months absent from the stored months are exactly the batch's new-month snapshots, sorted by month. |
| Months.SortByMonthFacts | backend/src/services/claudeService.ts:233 | The sort's result is sorted by month, is a permutation of its input, and keeps its length and deposit total. |
| Months.SortByMonthIsStable | backend/src/services/claudeService.ts:233 | Snapshots of one month keep their input order (`Array.prototype.sort` is stable). |
| Months.FilterSortByMonth | backend/src/services/claudeService.ts:233 | Filtering by month commutes with the stable sort. |
| Dedup.FindIndex | backend/src/services/claudeService.ts:257 | `findIndex`: the first index whose key matches, or -1 when none does. |
| Dedup.DedupByIsDistinct | backend/src/services/claudeService.ts:255-262 | The `index === self.findIndex(...)` filter equals the reference "keep an element iff its key was not seen before". |
| Dedup.DedupByIdempotent | backend/src/services/claudeService.ts:255-262 | Deduplicating twice is deduplicating once. |
| Dedup.DedupByAbsorbs | backend/src/services/claudeService.ts:255-262 | Appending elements whose keys are all in a duplicate-free list leaves that list unchanged. |
| Extraction.AnalyzeStatements | backend/src/services/claudeService.ts:66-219 | The request is one block per PDF or image file in order, then the prompt. An API failure yields "AI service error: " plus the message, or the fallback message. A reply without text yields "No text response from Claude". Unparseable fence-stripped text yields the parse-error message. Otherwise the result is the parsed analysis. |
| Extraction.Blocks | backend/src/services/claudeService.ts:71-95 | At most one block per file; the prompt is never among the file blocks. |
| Extraction.FirstText | backend/src/services/claudeService.ts:200-203 | It finds a text block iff the reply has one, and returns the first. |
| Extraction.StripFences | backend/src/services/claudeService.ts:206-210 | The text handed to `JSON.parse` is trimmed. |
| Extraction.StripJsonFenced | backend/src/services/claudeService.ts:206-210 | A reply "```json" (any case) + inner + "```", after trimming, yields the trimmed inner text, provided the trimmed inner text has no fence of its own at either end. Without that condition the plain-fence pass strips again (see `Extraction.NestedFenceStrippedTwice`). |
| Extraction.NestedFenceStrippedTwice | backend/src/services/claudeService.ts:206-210 | A json fence around a plain-fenced trimmed text `u` yields `u`, while the trimmed inner text is "```" + `u`: both passes strip a fence, so "```json```abc```" gives "abc". |
| Extraction.StripPlainFenced | backend/src/services/claudeService.ts:206-210 | A reply "```" + inner + "```", after trimming, yields the trimmed inner text, provided the inner text does not start with "json" in any case (that reply is a json fence) and the trimmed inner text has no fence of its own at either end. |
| Extraction.StripUnfenced | backend/src/services/claudeService.ts:206-210 | A reply that is unfenced after trimming is only trimmed. |
| Extraction.BlocksOfClassified | backend/src/services/claudeService.ts:71-95 | When every file is a PDF or an image, there is exactly one block per file, in file order. |
| Text.TrimStart | backend/src/services/claudeService.ts:206-210 | It removes exactly the leading JavaScript white space: the result is a suffix that does not start with white space, and the removed prefix is all white space. |
| Text.TrimEnd | backend/src/services/claudeService.ts:206-210 | The same at the end of the string. |
| Text.TrimOfTrimmed | backend/src/services/claudeService.ts:206-210 | `trim` leaves a string with no white space at either end unchanged, so trimming twice is trimming once. |
| Text.SplitIntoTwo | backend/src/middleware/auth.ts:32-33 | `split(' ')` gives exactly [a, b] iff the string is a + " " + b and neither part contains a space. |
| Text.JoinSplit | backend/src/middleware/auth.ts:32 | Joining the pieces of `split(' ')` with single spaces gives back the string. |
| Reports.CreateReport | backend/src/routes/reports.ts:20-69 | No user gives 401 and no analysis gives 400; neither writes anything. Otherwise the report row is stored with the given ids, or [] when none are given. One snapshot row per month of the analysis is appended, in order, tagged with the report and user. Nothing else changes. |
| Reports.AddStatements | backend/src/routes/reports.ts:177-262 | Each refusal writes nothing: 401 for no user; 400 for a missing or empty id list; 404 for an unknown report; 403 for another user's report; 404 when no requested statement is owned; 500 when extraction fails. Otherwise the analysis of the owned statements, in request order, is merged into the stored analysis. Only this report's analysis and id list are replaced. One snapshot row is appended per merged month the stored analysis lacked. |
| Reports.AppendNewSnapshots | backend/src/routes/reports.ts:232-251 | It appends one row per month outside the known set, in order, and changes nothing else. |
| Reports.AppendedSnapshotMonths | backend/src/routes/reports.ts:232-251 | The rows appended by add-statements are exactly the batch's new-month snapshots in month order. None repeats a stored month. |
| Reports.UnionIdsFacts | backend/src/routes/reports.ts:228 | The id union repeats no id. It holds every stored and requested id, including filtered-out ones. It keeps first occurrences in order, and a duplicate-free stored list stays in front unchanged. |
| Store.OwnedStatementsMembership | backend/src/routes/reports.ts:207-217 | A statement is kept iff it was requested, exists, and belongs to the caller. |
| Store.OwnedStatementsAppend | backend/src/routes/statements.ts:188-194 | The ownership filter works id by id, so it keeps request order. |
| Store.OwnedStatementsAreOwned | backend/src/routes/statements.ts:188-194 | Every kept statement belongs to the caller and is a stored row. |
| Store.Database.CollectOwned | backend/src/routes/statements.ts:188-194 | The lookup loop returns exactly the ownership filter's result. |
| Store.Database.FindStatement | backend/src/models/database.ts:127-129 | `WHERE id = ?` finds a row iff the id is stored. Under the store invariant the row found has the requested id as its primary key. |
| Store.Database.CreateStatement | backend/src/models/database.ts:118-121 | After the insert, looking up the new id finds exactly the inserted row, and every other id looks up as before. |
| Store.Database.FindReport | backend/src/models/database.ts:158-160 | `WHERE id = ?` finds a row iff the id is stored. Under the store invariant the row found has the requested id as its primary key. |
| Store.Database.CreateReport | backend/src/models/database.ts:145-148 | After the insert, looking up the new id finds exactly the inserted report, and every other id looks up as before. |
| Store.Database.FindUser | backend/src/models/database.ts:99-101 | `WHERE id = ?` finds a user iff the id is stored. Under the store invariant the user found has the requested id, which is what the middleware relies on when it sets `req.userId`. |
| Store.Database.UpdateReport | backend/src/models/database.ts:162-164 | Only the analysis and id list of that one report change. Looking the report up afterwards finds the new columns under the same id and owner, and every other report looks up as before. |
| Store.Database.CreateMonthlySnapshot | backend/src/models/database.ts:182-185 | It appends one row and touches no other table. |
| Store.FilesOf | backend/src/routes/statements.ts:202-206 | There is one analysis input per statement, in order, with its path, name and type. |
| Store.IdsOf | backend/src/routes/statements.ts:214 | The reply lists the kept statements' ids in order. |
| Store.WithRowsFacts | backend/src/routes/statements.ts:73-83 | Inserting rows with fresh, distinct ids adds exactly those keys. Each new row is found under its id, and older rows are untouched. |
| Statements.FileFilter | backend/src/routes/statements.ts:35-42 | It accepts exactly application/pdf, image/jpeg, image/png, image/gif and image/webp, and rejects all else with the source's message. |
| Statements.AcceptedFilesHaveBlocks | backend/src/routes/statements.ts:35-42 | Every accepted file becomes exactly one request block: a document for a PDF, otherwise an image with its media type. |
| Statements.InsertStatements | backend/src/routes/statements.ts:73-93 | The loop creates one statement row per file, in order, under the generated ids. |
| Statements.Upload | backend/src/routes/statements.ts:54-110 | No user gives 401 and no files gives 400, with nothing written. Otherwise one row is created and one view returned per file, in upload order. |
| Statements.UploadRows | backend/src/routes/statements.ts:73-93 | After an upload, the table has the old keys plus the generated ids. Each new id holds its file's row for the caller, and old rows are untouched. |
| Statements.Analyze | backend/src/routes/statements.ts:173-220 | It gives 401, 400, 404 when no requested statement is owned, and 500 when extraction fails. Otherwise the owned statements are analysed in request order, and the reply lists exactly their ids. Nothing is written. |
| Statements.DeleteFiles | backend/src/routes/statements.ts:262-266 | Every file's path is removed from the disk. |
| Statements.QuickAnalyze | backend/src/routes/statements.ts:224-288 | No files gives 400 with nothing changed. A failed extraction gives 500 and deletes every file. On success, a signed-in caller gets one row per file and keeps the files; anyone else's files are deleted. `saved` is true iff the caller is signed in. |
| Auth.VerifyToken | backend/src/middleware/auth.ts:16-22 | It gives null iff verification throws, and the claims otherwise. |
| Auth.BearerTokenShape | backend/src/middleware/auth.ts:32-38 | The header is accepted with token t iff it is "Bearer " + t and t has no space. |
| Auth.BearerTokenRefuses | backend/src/middleware/auth.ts:32-36 | An accepted header starts with "Bearer " followed by a space-free rest. |
| Auth.Authenticate | backend/src/middleware/auth.ts:24-54 | Success yields a stored user. A refusal carries one of the four messages. "No authorization header" is given iff the header is missing. |
| Auth.AuthenticateBearer | backend/src/middleware/auth.ts:38-50 | For "Bearer " + t, exactly t is verified. Failure gives "Invalid or expired token" and an unknown user gives "User not found". Otherwise the result is the user the claims name. |
| Auth.AuthenticateMalformed | backend/src/middleware/auth.ts:32-36 | A non-empty header not of the form "Bearer " + token is refused as badly formatted. |
| Auth.AuthMiddleware | backend/src/middleware/auth.ts:24-55 | Success calls `next` once and sets `user` and `userId` to the authenticated user. Otherwise it answers 401 with the reason and leaves the request unchanged. |
| Auth.OptionalAuthMiddleware | backend/src/middleware/auth.ts:57-83 | It always calls `next` exactly once and never answers. It sets `user` and `userId` iff the header is well formed, the token verifies, and the user exists. |

## Left out

- The remote model call, reading files from disk and base64 encoding: the
  reply, or the error the call throws, is the `ask` parameter of
  `Extraction.AnalyzeStatements`. The handlers take the extraction outcome for
  a file list as a parameter (`extract`), which `Extraction.AnalyzeStatements`
  models.
- `JSON.parse` and `JSON.stringify`: parsing is the `parse` parameter. Stored
  JSON columns hold the values they encode, and round-tripping through JSON is
  assumed to be lossless.
- SQL: prepared statements are methods of `Store.Database` over maps and a
  sequence. Primary keys are assumed unique, so creating a row with a fresh id
  never fails. Foreign keys, cascades and the `ORDER BY` of list queries are out.
- JWT signing and verification and bcrypt: verification is the `jwtVerify`
  parameter; signing and bcrypt belong to the sign-up and login routes.
- The sign-up, login, leads and read-only list routes, the statement delete
  route, the server wiring and the frontend: plain CRUD, wiring or UI, with no
  decision worth proving.
- The upload middleware's size and count limits (20 MB, 10 files) and its
  file naming: the handlers receive the files it accepted. `fileFilter` is
  modelled on its own.
- UUIDs, timestamps (`created_at`, `updated_at`, `uploadedAt`) and the
  snapshot row id: ids are parameters, and timestamps are absent from rows
  and responses.
- The 500 answers of `try`/`catch` for failures other than extraction (a
  database error, a malformed stored analysis): the modelled store does not
  fail.
- The read-modify-write race between two concurrent add-statements requests
  on one report: concurrency is not modelled, and each handler runs
  atomically.
- `localeCompare`: months compare in ordinal order, which agrees with it on
  the `YYYY-MM` keys. For other keys the model's order may differ.
- Merge.MergePeriod: the min/max statement assumes no empty month key. An
  empty first or last key would fall back through `||`; `Merge.MergeAnalysis`
  models that, but the lemma does not describe it.
- The non-array case of `statementIds` in `POST /reports`: `statementIds ||
  []` would store any truthy value. The model accepts a list or nothing.
