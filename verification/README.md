# use-sqlite core, modelled in Dafny

This project models the logic inside `hooks/use-sqlite.tsx`, the React
provider through which cricket-sequel runs SQL in the browser against an
SQLite database it downloads once. The React and WebAssembly glue is left
out. What remains are four sequential pieces and the guard in front of them:

- **Streaming download** (`Loader`). `downloadWithProgress` reads the
  response body chunk by chunk and reports progress against an assumed size
  of 800 000 000 bytes, capped at 99 while reading. It then copies the
  chunks into one preallocated buffer at a moving offset and reports exactly
  100. The response body is an `Option` of chunks; `None` stands for a
  response with no readable stream. The progress callback becomes an output
  trace.
- **Query normalisation** (`Query`). `runQuery` removes the last character
  of the query when the *trimmed* query ends with `;`. It then appends
  ` LIMIT 25;` unless the lower-cased query already contains `limit`. The
  test looks at the trimmed text but the cut is made on the untrimmed text.
  The model keeps that behaviour: with white space after the `;`, the last
  white-space character is removed and the `;` stays.
- **Result reshaping** (`Shaper`). The engine's row callback spreads every
  row onto one flat row-major list. Nested loops cut that list back into
  rows of `columnsCount` cells under a header row of column names.
- **Schema aggregation** (`Schema`). `getTableMetadata` walks the catalog
  and asks for the columns of each table. Each reported column is added to
  the table's entry by find-or-insert on the name.
- **Session** (`Session`). The database handle is a nullable field of a
  session class, null until loading succeeds. Both operations reject with
  `"Database not ready"` and hand no SQL to the engine while it is null.

The engine is not modelled. What it answers to a statement is an input:
an `ExecReply` for `runQuery`, and a catalog of (table name, column names)
entries for `getTableMetadata`. Every statement handed to the engine is
recorded in a ghost log on the handle, so the model can state which SQL was
run and that none was run.

Shared definitions live in `Base` (bytes, `Option`, `Result`) and `Seqs`
(joining pieces, cutting a sequence into equal-width pieces, and the
arithmetic behind it).

## Model

| member | source | states |
|---|---|---|
| Seqs.ConcatLength | hooks/use-sqlite.tsx:43-50 | the joined buffer is exactly as long as the running byte count (the sum of the chunk lengths) |
| Seqs.TotalLengthMonotone | hooks/use-sqlite.tsx:43 | the running byte count of a longer prefix of chunks is never smaller |
| Seqs.ConcatAt | hooks/use-sqlite.tsx:51-54 | byte k of chunk i sits in the join at the total length of chunks 0..i-1 plus k: receipt order, no gap, no overlap |
| Seqs.ConcatChunks | hooks/use-sqlite.tsx:139-148 | cutting a flat list into rows of C cells gives (length of the list) / C rows, and joining them gives back the list |
| Seqs.ChunksConcat | hooks/use-sqlite.tsx:132-148 | rows of C cells spread onto one list and cut again come back unchanged |
| Seqs.ChunksAt | hooks/use-sqlite.tsx:142-146 | row i of the cut is the slice from i * C to i * C + C of the flat list |
| Loader.Reported | hooks/use-sqlite.tsx:46 | the value reported inside the loop lies in [0, 99]; it is received / 800 000 000 * 100 exactly whenever that ratio is below 99 (fewer than 792 000 000 bytes), and 99 from there on |
| Loader.ReportedMonotone | hooks/use-sqlite.tsx:43-46 | more bytes received never gives a smaller reported value |
| Loader.LoopReports | hooks/use-sqlite.tsx:38-47 | one report per chunk, each between 0 and 99 |
| Loader.LoopReportsAt | hooks/use-sqlite.tsx:42-46 | report i is computed from the byte count after chunk i |
| Loader.LoopReportsMonotone | hooks/use-sqlite.tsx:43-46 | reports made while reading never decrease and stay below 100 |
| Loader.DownloadWithProgress | hooks/use-sqlite.tsx:32-58 | no reader: rejects with "Failed to get response reader" and reports nothing; otherwise the buffer is the chunks joined in receipt order with length equal to the byte count, and the trace is the loop reports followed by exactly one 100 |
| Loader.JoinChunks | hooks/use-sqlite.tsx:50-55 | a buffer of receivedLength bytes that holds the chunks joined in order |
| Loader.CopyAt | hooks/use-sqlite.tsx:53 | writing a chunk at an offset puts it right after the bytes already copied, keeps them, and leaves the bytes after the chunk untouched |
| Query.SkipSpace | hooks/use-sqlite.tsx:124 | the index of the first non-white-space character from a position on, everything skipped being white space |
| Query.ContentEnd | hooks/use-sqlite.tsx:124 | the index after the last non-white-space character before a position, everything after it being white space |
| Query.Trim | hooks/use-sqlite.tsx:124 | the trimmed text is never longer than the input and neither starts nor ends with white space |
| Query.TrimCutsOnlySpace | hooks/use-sqlite.tsx:124 | the trimmed text is a slice of the input with only white space cut off before and after it |
| Query.TrimmedEndsWithSemicolon | hooks/use-sqlite.tsx:124 | the trimmed query ends with `;` exactly when the last non-white-space character of the query is `;` |
| Query.StripTerminator | hooks/use-sqlite.tsx:124 | the result is a prefix of the query, one character shorter when its last non-white-space character is `;` and equal to it otherwise |
| Query.SpaceAfterSemicolonKeepsIt | hooks/use-sqlite.tsx:124 | with white space after the `;`, the character removed is white space and the stripped query still ends in `;` |
| Query.FinalSemicolonRemoved | hooks/use-sqlite.tsx:124 | a `;` that is the very last character is the one removed |
| Query.ToLower | hooks/use-sqlite.tsx:125 | lower-casing keeps the length, turns every ASCII capital into its small letter and keeps every other character |
| Query.CappedMentionsLimit | hooks/use-sqlite.tsx:125 | any query followed by ` LIMIT 25;` contains `limit` once lower-cased |
| Query.LimitedQuery | hooks/use-sqlite.tsx:124-125 | the SQL sent is the stripped query unchanged exactly when it mentions `limit` in any case, otherwise the stripped query followed by ` LIMIT 25;`; either way it mentions `limit` |
| Shaper.Pivot | hooks/use-sqlite.tsx:139-148 | the table has 1 + (number of flat values) / C rows, row 0 is the header, the data rows are the flat values cut into rows of C cells, and joining them gives back the flat values |
| Shaper.PivotCell | hooks/use-sqlite.tsx:142-146 | data row i has C cells and its cell j is flat value i * C + j |
| Shaper.Collect | hooks/use-sqlite.tsx:129-148 | the rows the engine passed come back unchanged under the header; with no columns only the header is returned |
| Schema.FindByName | hooks/use-sqlite.tsx:175-178 | the index of the first entry with the name, or none when no entry has it |
| Schema.FirstReportedDistinct | hooks/use-sqlite.tsx:175-176 | table names listed in order of first report are distinct |
| Schema.FirstReportedMembers | hooks/use-sqlite.tsx:174-180 | a table is listed exactly when at least one column was reported for it |
| Schema.DescribesDistinct | hooks/use-sqlite.tsx:175-176 | an aggregate never holds two entries with the same name |
| Schema.InsertKeepsDescribes | hooks/use-sqlite.tsx:175-176 | the first column of a table not yet listed adds one entry for it at the end, holding that column, and the result still describes all reports so far |
| Schema.AppendKeepsDescribes | hooks/use-sqlite.tsx:178-179 | a column of a listed table is appended to that entry only, and the result still describes all reports so far |
| Schema.RecordColumn | hooks/use-sqlite.tsx:174-180 | one column report keeps the entries an aggregate of all reports so far: one per reported table, in order of first report, each with its reported columns in order |
| Schema.Aggregate | hooks/use-sqlite.tsx:162-185 | the result is the aggregate of every column report of the catalog walk, and no two entries share a name |
| Schema.ColumnsOfAppend | hooks/use-sqlite.tsx:174-180 | the columns reported for a table over two runs of reports are those of the first run followed by those of the second |
| Schema.ColumnsOfEntry | hooks/use-sqlite.tsx:172-180 | the reports of one table row add its column rows to that table and nothing to any other |
| Schema.ColumnsOfCatalog | hooks/use-sqlite.tsx:166-185 | each entry's columns are the column lists of its table rows joined in catalog order, and a table with no column rows gets no entry |
| Session.Database.constructor | hooks/use-sqlite.tsx:70 | a fresh handle has run no statement |
| Session.SqlSession.constructor | hooks/use-sqlite.tsx:63 | the session starts with no handle |
| Session.SqlSession.SettleLoad | hooks/use-sqlite.tsx:96-110 | a successful load installs the database as the handle; a failed load leaves the handle as it was |
| Session.SqlSession.RunQuery | hooks/use-sqlite.tsx:113-153 | no handle: rejects with "Database not ready" and runs nothing; otherwise runs exactly the limited query once, rejects with the engine's error message or resolves with the header row followed by the engine's rows; the handle is not replaced |
| Session.SqlSession.GetTableMetadata | hooks/use-sqlite.tsx:157-186 | no handle: rejects with "Database not ready" and runs nothing; otherwise runs the catalog query and one `PRAGMA table_info(name)` per table row, in catalog order, and resolves with the aggregate of the reported columns, names distinct |

## Left out

- Network I/O: `fetch`, the `Accept-Encoding` header, the size hint read from the response headers (computed and never used) and the stream reader itself. The chunks the reader would deliver are an input.
- Floating point: the progress ratio is an exact rational. `Loader.Reported` therefore does not capture IEEE rounding of `receivedLength / 800_000_000 * 100`.
- SQLite WebAssembly set-up: module initialisation, `allocFromTypedArray`, `sqlite3_deserialize`, `checkRc`, the sanity `SELECT count(*) FROM matches`, `PRAGMA shrink_memory` and the memory they own. `Session.SqlSession.SettleLoad` takes the outcome of that set-up as an input.
- SQL semantics: what the engine returns for a statement, `sqlite_master` and `PRAGMA table_info` are inputs, not computed.
- Telemetry, timing and logging: the PostHog events, `performance.now` and `console.log`.
- React context, `useState`/`useEffect`/`useRef` lifecycle, promise wrapping and the `useSQLite` hook.
- Unicode: trimming removes ASCII white space only, and lower-casing maps ASCII letters only.
- Shaper.Pivot: requires C > 0 and a flat list whose length is a multiple of C. `Shaper.Collect` covers the C = 0 case (a row count of 0 / 0, not a number, so no data row), and it receives engine rows that each have C cells.
- Session.SqlSession.RunQuery: requires every row the engine answers with to have one cell per column, as the engine guarantees.
- Session.SqlSession.GetTableMetadata: an engine error raised during the catalog walk is not modelled; the walk always completes.
- Schema.RecordColumn: entries are values updated functionally. The in-place `columns.push` on the shared entry object and any aliasing of it are not captured. The entries are not visible to anyone before the walk returns.
- Loading a second database: the source never closes the previous handle when a new one is installed, and the model does the same. Releasing the prior handle is not modelled.
- Terminator stripping removes at most one character, as the code does. Several trailing terminators are not all removed.
- Shaper.Pivot: its ensures clauses state the data rows through `Seqs.Chunks`. The width of each row and the cell-by-cell index are stated separately by `Shaper.PivotCell`.
- Concurrency and suspension of the asynchronous stream between reads.
