# irori-server ETL commands in Dafny

irori-server copies event records (`date`, `timestamp`, `device_type`,
`event_type`, `message`) from a source table `raw_records` to a target table
`records` and upper-cases each message on the way. It has two command-line
programs, and both are modelled here.

- **The worker command** (`cli/etl-worker`) does the following:
  - `parseDateRange` resolves a time window; by default this is yesterday 00:00 to today 00:00.
  - `main` splits the window's id interval `[minID, maxID]` among four extractors.
  - Each `Extractor` pages through its id range with keyset pagination (`id > lastID ... ORDER BY id LIMIT chunkSize`).
  - `Transformer` upper-cases messages.
  - `LoaderBulkUpsert` buffers records and writes every `bulkSize` of them with one
    `INSERT ... ON DUPLICATE KEY UPDATE message = VALUES(message)` inside a
    transaction. A final flush on exit writes what is left.
- **The serial command** (`cli/etl-selial`) pages with `LIMIT/OFFSET` and does the following for each page:
  - upper-cases the page in place;
  - writes it with one INSERT whose values are spliced into the statement text between single quotes;
  - stops at the first empty page.

The model keeps the source's own form:

- Loops are methods with invariants. The serial transformer works in place on an `array`.
- Each method is proved against a reference function:
  - `Extract.Eligible` is a worker's share of the table;
  - `Load.Batches` and `Load.Applied` give the batches and the table they produce;
  - `Serial.UpperAll` is the transformed page.
- The database is a sequence of rows in id order (source) or a map from the unique key to the message (the upsert target).
- Faults that the database, the scanner and the context can raise are explicit inputs.
- Channels become sequences: what a stage receives and what it sends.
- Cancellation is the loop iteration at which `ctx.Done()` is chosen.

Modules:

- `Wrappers` holds `Option` and `Result`.
- `EtlTypes` is the worker's `Record`.
- `Text` holds ASCII `ToUpper` and `strings.Join`.
- `DateRange` is `parseDateRange`.
- `Partition` is the id split.
- `Extract`, `Transform` and `Load` are the worker's three stages.
- `Pipeline` is the split combined with the extractors' shares.
- `Serial` is the serial command.

Where the code and its stated intent disagree, the model follows the code:

- **Range split.** The comment at `cli/etl-worker/main.go:108` says the id range is split evenly among the extractors, so every id should go to one of them. The code gives every worker exactly `rangeSize` ids, and the remainder of the division goes to nobody (see Findings).
- **Extractor counter.** The extractor increments `count` twice per row. The model keeps this (`Extract.SendRows` ensures `count == 2 * |rows|`). It is harmless because `count` is only compared with zero.

## Model

| member | source | states |
|---|---|---|
| Text.UpperChar | irori-server/cli/etl-worker/etl/transform.go:18 | a lower-case ASCII letter maps to its capital, any other character is unchanged, and the result is never lower case |
| Text.Upper | irori-server/cli/etl-worker/etl/transform.go:18 | `ToUpper` keeps the length, maps every character by `UpperChar` and leaves no lower-case letter |
| Text.UpperIdempotent | irori-server/cli/etl-worker/etl/transform.go:18 | upper-casing twice equals upper-casing once |
| Text.UpperAppend | irori-server/cli/etl-worker/etl/transform.go:18 | upper-casing distributes over concatenation |
| Text.JoinSnoc | irori-server/cli/etl-worker/etl/load.go:34 | `strings.Join`: appending one more part to a non-empty list of parts appends the separator and then that part, so the separator stands exactly between consecutive parts (with no parts giving the empty string and one part giving that part, by `Join`'s own contract) |
| Text.JoinCount | irori-server/cli/etl-worker/etl/load.go:22-34 | when every part contains a character the same number of times `k`, the join of `n > 0` parts contains it `n * k` times plus once per occurrence in each of the `n - 1` separators |
| DateRange.Before | irori-server/cli/etl-worker/main.go:77 | no time is before itself |
| DateRange.BeforeIsStrictOrder | irori-server/cli/etl-worker/main.go:77 | `Before` is a strict total order on civil times: irreflexive, asymmetric, transitive, and one of two distinct times is before the other |
| DateRange.NextDay | irori-server/cli/etl-worker/main.go:53 | the day after a valid date is a valid date strictly after it (the inverse of `AddDate(0, 0, -1)`) |
| DateRange.PrevDay | irori-server/cli/etl-worker/main.go:53 | `AddDate(0, 0, -1)` yields a valid calendar date strictly before the given one whose next day is the given one |
| DateRange.Midnight | irori-server/cli/etl-worker/main.go:51-52 | today's midnight is a valid time on the same date at 00:00, not after now |
| DateRange.ParseDateRange | irori-server/cli/etl-worker/main.go:45-82 | both arguments omitted: the window is exactly one calendar day, [yesterday 00:00, today 00:00); exactly one omitted: InvalidArgument; a start that does not parse: InvalidStartFormat; an end that does not parse: InvalidEndFormat; the result is EndBeforeStart if and only if the end is before the start; otherwise the parsed window. Every accepted window has start <= end |
| DateRange.EqualBoundsAccepted | irori-server/cli/etl-worker/main.go:77-81 | an end equal to the start is accepted (the check is `Before`, not `!After`) |
| Partition.GoQuo | irori-server/cli/etl-worker/main.go:114 | Go's `/` truncates toward zero: the remainder `a - b * q` lies in `[0, b)` for a non-negative dividend and in `(-b, 0]` for a negative one |
| Partition.RangeSize | irori-server/cli/etl-worker/main.go:114 | `rangeSize` is the span divided by four, truncated toward zero: `4 * size <= span < 4 * size + 4` for a non-negative span, `4 * size - 4 < span <= 4 * size` for a negative one |
| Partition.RangeOf | irori-server/cli/etl-worker/main.go:122-123 | each range holds exactly `rangeSize` ids, and is empty exactly when `rangeSize <= 0` |
| Partition.Partition | irori-server/cli/etl-worker/main.go:114-123 | four ranges of `rangeSize` ids each, the first starting at `minID` and each next one starting right after the previous one ends |
| Partition.SmallSpanAllEmpty | irori-server/cli/etl-worker/main.go:114-123 | fewer ids than workers: `rangeSize` is never positive, and is 0 when `minID <= maxID`; the four ranges are empty and cover no id |
| Partition.RangesDisjoint | irori-server/cli/etl-worker/main.go:121-123 | no id is in two workers' ranges |
| Partition.RangesUnion | irori-server/cli/etl-worker/main.go:114-123 | an id is in some range if and only if it lies in `[minID, minID + 4 * rangeSize - 1]` |
| Partition.RemainderDropped | irori-server/cli/etl-worker/main.go:114-123 | ranges stay inside `[minID, maxID]`, and an id of the interval is handed to no worker if and only if it is among the top `(maxID - minID + 1) % 4` |
| Partition.SevenIdsDropThree | irori-server/cli/etl-worker/main.go:114-123 | ids 1..7 are split as [1,1], [2,2], [3,3], [4,4]; ids 5, 6 and 7 go to nobody |
| Partition.AbsorbingRangesPartition | irori-server/cli/etl-worker/main.go:121-123 | with the last range ending at `maxID`, an id is covered if and only if it lies in `[minID, maxID]`, and by no two ranges |
| Pipeline.InShare | irori-server/cli/etl-worker/etl/extract.go:30-38 | a row is in the share of range `[start, end]` exactly when it is a source row with `start <= id <= end` inside the time window |
| Pipeline.SharesCoverOnce | irori-server/cli/etl-worker/main.go:121-128 | with the absorbing partition, every row of the window lies in the share of exactly one of the four extractors |
| Pipeline.RowLostAsWritten | irori-server/cli/etl-worker/main.go:121-128 | with the partition as written, a row of the window with an id among the top `span % 4` is in no extractor's share |
| Extract.Select | irori-server/cli/etl-worker/etl/extract.go:33-35 | the rows kept are never more than the table's, and each satisfies the WHERE clause |
| Extract.Eligible | irori-server/cli/etl-worker/etl/extract.go:23-34 | every row of a worker's share has `minID <= id <= maxID` and a timestamp inside the window |
| Extract.Page | irori-server/cli/etl-worker/etl/extract.go:30-38 | a page holds at most `chunkSize` rows, and a page shorter than the limit is everything left after the cursor |
| Extract.PageSpec | irori-server/cli/etl-worker/etl/extract.go:30-38 | a page holds at most `chunkSize` source rows, each satisfying the WHERE clause, in ascending id order |
| Extract.SelectSound | irori-server/cli/etl-worker/etl/extract.go:33-34 | a row is selected if and only if it is a source row satisfying the WHERE clause |
| Extract.SelectAscending | irori-server/cli/etl-worker/etl/extract.go:35 | selecting from an id-ordered table keeps the id order |
| Extract.SelectCompose | irori-server/cli/etl-worker/etl/extract.go:33 | selecting twice with two id bounds is selecting once with the tighter bounds |
| Extract.SelectAppend | irori-server/cli/etl-worker/etl/extract.go:33-35 | selection distributes over concatenation of the table |
| Extract.SelectAfter | irori-server/cli/etl-worker/etl/extract.go:71 | in an ordered sequence of wanted rows, the rows after the `k`-th row's id are exactly the rows after position `k` |
| Extract.EligibleSpec | irori-server/cli/etl-worker/etl/extract.go:23-38 | a worker's share is id-ordered, holds exactly the source rows with `minID <= id <= maxID` inside the window, and is empty for an empty range |
| Extract.ShareFromCursor | irori-server/cli/etl-worker/etl/extract.go:66-72 | after `pos` rows of the share have been emitted, the cursor `lastID` (the last emitted id, initially `minID - 1`) selects exactly the rest of the share |
| Extract.PageAtCursor | irori-server/cli/etl-worker/etl/extract.go:30-38 | at the cursor after `pos` emitted rows, the page query returns the next `min(chunkSize, remaining)` rows of the share |
| Extract.QueryPage | irori-server/cli/etl-worker/etl/extract.go:38 | the query issued at the cursor answers with the next slice of the share |
| Extract.SendRows | irori-server/cli/etl-worker/etl/extract.go:47-63 | with no interrupt, all rows are sent in order, `count` is twice the row count and `maxFetchedID` is the last id; a scan error or a cancellation on row `j` returns its cause after exactly the rows before `j` were sent |
| Extract.FetchChunk | irori-server/cli/etl-worker/etl/extract.go:29-72 | one chunk either extends the emitted prefix of the share by the page size, moves the cursor to the last emitted id, and then no interrupt struck its query or any of its rows; or it stops with the interrupt's cause, on this chunk, at a row the page has, after the rows sent before it |
| Extract.ChunkStep | irori-server/cli/etl-worker/etl/extract.go:29-72 | one chunk seen from the whole run: a stop is an interrupt the run reaches; an empty page ends the share with no interrupt reached; a non-empty page moves the emitted prefix to the end of the next full page, with no interrupt reached so far |
| Extract.Extractor | irori-server/cli/etl-worker/etl/extract.go:13-75 | what is emitted is always a prefix of the worker's share in id order, each row once; a normal exit has emitted the whole share; an error exit has the interrupt's cause (query, scan, cancel) and emitted exactly the rows before it; the run fails if and only if it gets as far as the interrupt: a query error of a chunk the run issues, or a scan error or cancellation on a row that exists |
| Transform.TransformRecord | irori-server/cli/etl-worker/etl/transform.go:18 | only the message changes, and it becomes its upper-case form character by character |
| Transform.TransformIdempotent | irori-server/cli/etl-worker/etl/transform.go:18 | transforming a transformed record changes nothing |
| Transform.Handled | irori-server/cli/etl-worker/etl/transform.go:9-22 | a stage handles at most what it receives, and all of it without cancellation |
| Transform.Transformer | irori-server/cli/etl-worker/etl/transform.go:9-22 | exactly one output per handled input, in order, each the transformed input |
| Load.RowsOf | irori-server/cli/etl-worker/etl/load.go:24-26 | the rows written are the records' five columns, one row per record, in order |
| Load.FlatArgs | irori-server/cli/etl-worker/etl/load.go:23-27 | five arguments per record |
| Load.FlatArgsAppend | irori-server/cli/etl-worker/etl/load.go:24-27 | the arguments of two record lists concatenated are the two argument lists concatenated |
| Load.ArgsRoundTrip | irori-server/cli/etl-worker/etl/load.go:26 | the driver reading the flat argument list five at a time recovers exactly the records' rows |
| Load.ArgsIgnoreId | irori-server/cli/etl-worker/etl/load.go:26 | the arguments depend only on the five written columns, not on `ID` |
| Load.Placeholders | irori-server/cli/etl-worker/etl/load.go:25 | one `(?, ?, ?, ?, ?)` group per record |
| Load.HeadHasNoPlaceholder | irori-server/cli/etl-worker/etl/load.go:29-31 | the statement text before the value groups has no `?` |
| Load.TailHasNoPlaceholder | irori-server/cli/etl-worker/etl/load.go:32-34 | the statement text after the value groups has no `?` |
| Load.PlaceholderHasFive | irori-server/cli/etl-worker/etl/load.go:25 | each value group has five `?` |
| Load.DecodeRows | irori-server/cli/etl-worker/etl/load.go:26 | an argument list that binds to rows has five arguments per row |
| Load.UpsertQuery | irori-server/cli/etl-worker/etl/load.go:29-34 | the statement begins with the `INSERT INTO records (...) VALUES` head and ends with the `ON DUPLICATE KEY UPDATE message = VALUES(message)` tail |
| Load.PlaceholderCount | irori-server/cli/etl-worker/etl/load.go:22-34 | the statement of `n > 0` records has exactly `5 * n` placeholders, one per argument |
| Load.BuildStatement | irori-server/cli/etl-worker/etl/load.go:22-34 | the loop builds the upsert statement with one group per record and the flat argument list |
| Load.UpsertKeys | irori-server/cli/etl-worker/etl/load.go:29-34 | the upsert deletes no key, and the keys it adds are exactly the keys of the rows |
| Load.UpsertAsUnion | irori-server/cli/etl-worker/etl/load.go:29-34 | upserting overrides the table with the key-to-message map of the rows |
| Load.UpsertIdempotent | irori-server/cli/etl-worker/etl/load.go:32-33 | re-running a batch's upsert leaves the table as it was after the first run |
| Load.UpsertAppend | irori-server/cli/etl-worker/etl/load.go:29-34 | upserting two lists is upserting one after the other |
| Load.UpsertLastWins | irori-server/cli/etl-worker/etl/load.go:32-33 | a key's message after the upsert is that of its last row in the batch |
| Load.UpsertUntouched | irori-server/cli/etl-worker/etl/load.go:32-33 | a key no row carries keeps its presence and its message |
| Load.ExecuteAccepts | irori-server/cli/etl-worker/etl/load.go:41-44 | a statement the database accepts has one placeholder per argument and five arguments per row, and its effect keeps every key of the table |
| Load.BatchStatementExecutes | irori-server/cli/etl-worker/etl/load.go:29-44 | the statement and arguments built for a non-empty batch execute, and the effect is the batch's upsert |
| Load.Flush | irori-server/cli/etl-worker/etl/load.go:16-49 | an empty batch is a no-op; otherwise BeginTx, Exec and Commit failures give their errors and leave the table unchanged, and success upserts the batch |
| Load.Width | irori-server/cli/etl-worker/etl/load.go:67 | the flush threshold is at least one record, and is `bulkSize` itself when `bulkSize` is positive |
| Load.Receive | irori-server/cli/etl-worker/etl/load.go:62-72 | a received record is appended to the buffer; a buffer reaching the threshold becomes one more batch, is flushed and is reset; no record is lost or repeated |
| Load.LoaderBulkUpsert | irori-server/cli/etl-worker/etl/load.go:13-75 | every handled record goes to exactly one flush, in order; in-loop flushes get exactly `Width(bulkSize)` records (`bulkSize` when positive, one when it is 0) and the final flush a non-empty remainder (the batches are `Batches` of the handled records); the table holds exactly the batches whose transaction succeeded, and the final flush fails after cancellation; `bulkSize` must not be negative, because `make` panics on a negative capacity |
| Load.FinalFlush | irori-server/cli/etl-worker/etl/load.go:51-56 | the deferred flush adds the non-empty remainder as the last batch; after cancellation its transaction does not begin |
| Load.BatchesUnique | irori-server/cli/etl-worker/etl/load.go:66-72 | full batches of the threshold followed by at most one shorter non-empty batch, concatenating to `s`, are exactly `Batches(s)` |
| Load.AllAppliedIsOneUpsert | irori-server/cli/etl-worker/etl/load.go:13-75 | when every transaction succeeds, the batches' effect is one upsert of all handled records in order |
| Load.TwentyFiveThousand | irori-server/cli/etl-worker/etl/load.go:66-72 | 25000 records at `bulkSize` 10000 give batches of 10000, 10000 and 5000 |
| Serial.OffsetPage | irori-server/cli/etl-selial/main.go:27-32 | `LIMIT chunkSize OFFSET offset` returns the next `min(chunkSize, remaining)` rows from `offset`, and nothing past the end |
| Serial.Extractor | irori-server/cli/etl-selial/main.go:26-49 | a failing query returns no records; a scan failure on row `j` returns exactly the rows before it; otherwise the whole page |
| Serial.UpperRecord | irori-server/cli/etl-selial/main.go:54 | only the message changes, character by character to upper case |
| Serial.UpperAllAppend | irori-server/cli/etl-selial/main.go:53-55 | transforming a page piece by piece equals transforming it whole |
| Serial.UpperAllIdempotent | irori-server/cli/etl-selial/main.go:54 | transforming twice is transforming once |
| Serial.Transformer | irori-server/cli/etl-selial/main.go:52-57 | the slice is updated in place to its transformed contents |
| Serial.Loader | irori-server/cli/etl-selial/main.go:60-82 | no records: nothing is executed; otherwise the one INSERT statement of the page is executed; the rows are appended if and only if the execution does not fail and every value survives the quoting (the database reads the statement back as the page's values); otherwise InsertError and nothing is appended |
| Serial.TupleText | irori-server/cli/etl-selial/main.go:69-72 | a tuple opens with `(`, closes with `)`, and is longer than each of its values by at least the two quotes |
| Serial.InsertStatement | irori-server/cli/etl-selial/main.go:65-76 | the statement begins with the fixed INSERT head, and is the bare head exactly when there are no records |
| Serial.DecodeInsert | irori-server/cli/etl-selial/main.go:65-77 | a statement the database reads begins with the INSERT head and yields at least one tuple, each of five values |
| Serial.ReadPlain | irori-server/cli/etl-selial/main.go:69 | a quoted value without quote or backslash is read back exactly, up to its closing quote |
| Serial.ReadNotPlain | irori-server/cli/etl-selial/main.go:69 | a quoted value with a quote or a backslash is not read back as itself |
| Serial.TupleShape | irori-server/cli/etl-selial/main.go:69-72 | a record's tuple is `(` followed by its five quoted values separated by `, ` and closed by `)` |
| Serial.ParsePlain | irori-server/cli/etl-selial/main.go:69-72 | the quoted values of a tuple are read back exactly when all are plain |
| Serial.ParseNotPlain | irori-server/cli/etl-selial/main.go:69-72 | a tuple with a value that is not plain is not read back as its values |
| Serial.ParseTuplesRoundTrip | irori-server/cli/etl-selial/main.go:68-76 | the comma-joined tuples of a non-empty page are read back as the page's values if and only if every value is plain |
| Serial.InsertRoundTrip | irori-server/cli/etl-selial/main.go:65-76 | the INSERT statement of a non-empty page is read back as the page's values if and only if no value contains a quote or a backslash |
| Serial.QuoteBreaksStatement | irori-server/cli/etl-selial/main.go:69-72 | a message `it's` breaks the statement: it is not read back as the record's values |
| Serial.RunPage | irori-server/cli/etl-selial/main.go:113-136 | one iteration: it fails if and only if the page fails (`PageFails`: its query fails, its scan fails on a row it has, or it is non-empty and its insert fails or a value breaks the quoting); without faults and with every transformed value (message, formatted date and time alike) free of quotes and backslashes (`AllPlain`) it never fails; on success the inserted rows grow from the transformed rows before `offset` to those before `offset + chunkSize`; a failure inserts nothing; an empty page means the rows are exhausted |
| Serial.TransformLoad | irori-server/cli/etl-selial/main.go:124-133 | a non-empty page is transformed in place and inserted: it fails if and only if the insert fails or a transformed value breaks the quoting, and on success the transformed page is appended |
| Serial.PagePlain | irori-server/cli/etl-selial/main.go:115-133 | if every transformed row survives the quoting, so does every transformed page |
| Serial.SerialRun | irori-server/cli/etl-selial/main.go:110-137 | a run that ends normally has inserted every row exactly once, in order, transformed, and stopped at an empty page; every page before the last was non-empty and went through; the run fails if and only if the page it stops at fails; without faults and with every transformed value (message, formatted date and time alike) free of quotes and backslashes (`AllPlain`) there is no error; the rows inserted are exactly the transformed pages before the last |

## Left out

- Concurrency. The stages are modelled one goroutine at a time:
  - channels are the sequences a stage receives and sends;
  - the goroutines, wait groups and channel buffering of `main` (etl-worker `main.go:116-160`) are not modelled;
  - the interleaving of four extractors and two loaders on shared channels is not modelled.
- `getIDRange` and the SQL engine itself:
  - the source table is a sequence ordered by a strictly increasing id;
  - `MIN(id)` and `MAX(id)` are inputs;
  - the WHERE clauses, `ORDER BY`, `LIMIT` and `OFFSET` are written out as functions on that sequence.
- Connections and configuration (`package/db`, `package/env`, `etl/db.go`), pool settings and the create-test-data command: plumbing outside the ETL logic.
- Time:
  - the records' `date` and `timestamp` are integer instants;
  - `parseDateRange` works on civil times (a calendar date and a nanosecond of the day), compared field by field;
  - `time.Now()` and `time.ParseInLocation` are parameters of `ParseDateRange`;
  - `Format` layouts are parameters of the serial loader;
  - time zones and daylight-saving transitions are not modelled.
- Logging, `log.Fatal` and the process exit. A fatal error ends the modelled run with its error.
- Text.UpperChar: upper-cases ASCII letters only. `strings.ToUpper` also maps non-ASCII letters, and some of them change byte length.
- Database faults are inputs: one optional interrupt per extractor run and one per serial run, located by chunk (page) and row, and one `TxFault` per flush of the worker loader. Their full variety is not modelled:
  - deadlocks and retries;
  - the result of `Rollback`;
  - `rows.Next` stopping early with an error that `rows.Err()` would report. The extractor (`etl/extract.go:47-64`) never checks it. Such a stop on the first row of a page ends the share silently with no error, and a stop later in a page only re-queries from the cursor. The model has no interrupt of this kind.
- Partition.RangeSize: integers are unbounded. The source's `int64` arithmetic wraps around in `maxID - minID + 1` (`cli/etl-worker/main.go:114`) and in `minID - 1` (`etl/extract.go:23`) when the ids are at the ends of the `int64` range; the model does not capture that.
- Serial.Loader: a statement whose values break the quoting is modelled as an insert error. The database may instead execute such an injected statement and insert other rows, or a different number of rows; that effect is not modelled.
- The target of the worker loader is a map from the unique key to the message. A commit failure is modelled as not applied, although in a real database its effect is unknown.
- The serial command's target is the sequence of inserted rows. A duplicate-key failure is one of the insert faults, not a separate case.
- The serial command's fixed date filter (`2025-10-17`) is applied by the database. The model's input is the filtered, id-ordered result set.
- Serial.ReadQuoted: reading a statement back treats a backslash as an error instead of modelling MySQL's escape sequences. The round trip is therefore stated for values without quotes and backslashes.
- Cancellation is the loop iteration at which `ctx.Done()` is chosen. Go's `select` picks at random among ready cases; any such choice is one value of that input.

## Findings

| source | as written | input that shows it | evidently intended | confidence | as-written member | corrected member |
|---|---|---|---|---|---|---|
| irori-server/cli/etl-worker/main.go:114-123 | every extractor gets exactly `rangeSize = (maxID - minID + 1) / 4` ids, so the top `(maxID - minID + 1) % 4` ids of the interval belong to no worker and their rows are never extracted | `minID = 1`, `maxID = 7`: ranges [1,1], [2,2], [3,3], [4,4]; ids 5, 6 and 7 are skipped | the last extractor's range ends at `maxID` and absorbs the remainder, so every id of `[minID, maxID]` is extracted exactly once | high (proved about the model; not executed) | Pipeline.RowLostAsWritten | Pipeline.SharesCoverOnce |
