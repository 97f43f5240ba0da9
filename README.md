# CSVHandler, modelled and verified in Dafny

`CSVHandler` is a record store over one delimited text file held in a remote file store.
The store can do four things: return the whole file, create (or truncate) it, append data at
an offset, and flush up to an offset. On top of that the handler offers Read, Write, Update
and Delete:

- The first non-empty line of the file is the header of column names. Every later line is a
  record, and a record's first cell is its identifier, a GUID.
- Cells that parse as decimals are written bare. Every other cell is wrapped in double
  quotes, including GUIDs.
- Reading strips every quote from a line and splits it on the delimiter.
- Write appends one record at the end of the file and flushes it.
- Update and Delete read the whole table, change it in memory, and rewrite the file with
  create, append at 0, flush at the content length.

The project holds these modules:

- `Outcomes` (`outcomes.dfy`): `Option`, `Result` and the exceptions the handler can raise.
  - `RequestFailed(request)` is a non-success HTTP status on one of the four requests.
  - `DelimiterNotFound` is `Substring(0, LastIndexOf(...))` with nothing to trim.
  - `IndexOutOfRange` is a list indexed past its end.
  - `BadGuid(cell)` is `Guid.Parse` throwing on a cell.
- `Text` (`text.dfy`): the string library calls the handler relies on.
  - `String.Split` on a set of separator characters.
  - `String.Replace("\"", "")`.
  - `String.LastIndexOf` for a one-character needle.
  - A join, with the lemmas that relate them.
- `Table` (`table.dfy`): the file format as functions.
  - `Serialize` is the text `ReadResultToCSV` produces.
  - `EncodeRecord` is the row `Write` appends.
  - `ParseLines` and `ParseContent` are what `Read` returns, together with the new header flag.
  - `UpdateRows` is Update's in-memory pass.
  - `DeleteRows` is Delete's in-memory pass.
  - `WellFormed` marks the tables that survive the format unchanged.
- `TableProperties` (`table_properties.dfy`) proves the serialiser's shape, Write-then-Read,
  the behaviour of the sticky header flag, and the round trip `Read(ReadResultToCSV(t)) == t`.
  The round trip holds for a handler whose header flag is still clear and for a table
  satisfying `WellFormed`.
- `RowProperties` (`row_properties.dfy`) proves exactly what Update and Delete do to the rows,
  and Update-then-Read and Delete-then-Read.
- `RemoteStore` (`remote_file.dfy`): the remote file as a class. It holds flushed
  (`committed`) and appended-but-unflushed (`pending`) text. Each request may fail, which
  stands for a non-success HTTP status. Append and flush succeed only at the position where
  the file's data ends.
- `Handler` (`csv_handler.dfy`): the class `CSVHandler` with its `skipHeader` field and the
  source's operations as methods with loops. Each method is proved against the functions of
  `Table`.

The library calls the handler makes are fields of the handler, and the model says nothing
about how they decide:

- `isDecimal` stands for `Decimal.TryParse`.
- `parseGuid` stands for `Guid.Parse`, where `None` means it throws.
- `newLine` stands for `Environment.NewLine`.

The round-trip lemmas assume a platform newline of `"\n"` or `"\r\n"`. They also assume a
delimiter that is neither a quote nor a line-break character. `WellFormed` asks that no
serialised line be empty, because Read skips empty lines. That can only fail on a
one-column table. `TableProperties.NoBlankLinesFromParse` shows it holds whenever
`Decimal.TryParse("")` is false, the first key name is not empty and every row has a cell.

Several behaviours of the code are easy to mistake for something else: for example, Delete
removing only the first matching row, or Update taking one element per non-identifier
column. The model follows the code in each case:

- Delete removes every row whose identifier matches, not only one. Its `break` leaves only
  the inner column loop.
- Update rewrites every matching row.
- Update's `elements` are aligned with all the columns, identifier included. Elements
  `[null, "B"]` on a three-column file therefore raise at column 2 instead of setting column
  2 (`RowProperties.UpdateShortElements`).
- The header flag is a field that Read sets and nothing ever clears. A second Read on the
  same handler returns no keys and hands the header back as a record
  (`TableProperties.ReadTwice`). Update and Delete on such a handler always fail before
  touching the file (`TableProperties.StickyFlagBlocksRewrite`).
- GUID cells are quoted. Only the decimal test decides quoting.

## Model

| member | source | states |
|---|---|---|
| Handler.CSVHandler.constructor | src/MetricProvider/CSVHandler.cs:19-24 | the handler starts with the given header flag and delimiter, by default a clear flag and a comma |
| Handler.CSVHandler.ReadResultToCSV | src/MetricProvider/CSVHandler.cs:26-53 | the serialiser (header loop, then row loop) computes `Serialize`; with no keys it raises DelimiterNotFound; with keys it succeeds exactly when every row has at least `keys.Count` cells |
| Handler.CSVHandler.HeaderLine | src/MetricProvider/CSVHandler.cs:28-33 | the key loop and trim give the keys joined by the delimiter and ended by "\n"; no keys raise DelimiterNotFound |
| Handler.CSVHandler.EncodeRows | src/MetricProvider/CSVHandler.cs:35-50 | the row loop succeeds exactly when every row has at least `n` cells, and then appends each row's line in order; otherwise it raises IndexOutOfRange |
| Handler.CSVHandler.EncodeCells | src/MetricProvider/CSVHandler.cs:160-174 | the cell loop and trailing trim give the first `n` cells encoded, joined by the delimiter and ended by "\n"; no cells raise DelimiterNotFound, and fewer than `n` cells raise IndexOutOfRange |
| Handler.CSVHandler.GetFileLength | src/MetricProvider/CSVHandler.cs:204-219 | the length is that of the flushed content; a failed GET raises |
| Handler.CSVHandler.Read | src/MetricProvider/CSVHandler.cs:221-265 | on success the keys, rows and new flag are `ParseContent` of the flushed content under the old flag; a failed GET raises and leaves the flag alone |
| Handler.CSVHandler.ReadLine | src/MetricProvider/CSVHandler.cs:241-258 | one pass of Read's loop body is `ParseStep`: an empty line changes nothing; with the flag clear the line's cells join the keys and the flag is set; otherwise they become a new row |
| Handler.CSVHandler.AddCells | src/MetricProvider/CSVHandler.cs:248-251 | the keys grow by exactly the line's cells, in order |
| Handler.CSVHandler.ApplyUpdate | src/MetricProvider/CSVHandler.cs:103-124 | the nested loop over rows and columns computes `UpdateRows`; it raises the first row's exception when some row fails, and the keys are kept |
| Handler.CSVHandler.UpdateCells | src/MetricProvider/CSVHandler.cs:104-121 | the column loop over one row computes `UpdateRow`: a bad identifier raises; a row that does not match is unchanged; a matching row gets every non-null element, or raises IndexOutOfRange at the first column it cannot reach; with no keys the row is unchanged |
| Handler.CSVHandler.RemoveRows | src/MetricProvider/CSVHandler.cs:135-148 | the reverse loop with `RemoveAt` computes `DeleteRows`: the rows without a match in order, or the exception of the last row whose identifier does not parse |
| Handler.CSVHandler.ScanRow | src/MetricProvider/CSVHandler.cs:137-146 | the column loop over one row decides its removal: a bad identifier raises, otherwise the row goes exactly when its identifier matches; with no keys it stays |
| Handler.CSVHandler.CreateFile | src/MetricProvider/CSVHandler.cs:55-96 | on success the file holds exactly `content`; a failed create leaves the file alone; a failed append leaves it empty; a failed flush leaves `content` staged but unflushed |
| Handler.CSVHandler.Write | src/MetricProvider/CSVHandler.cs:154-202 | on success the flushed content is the old content followed by `EncodeRecord(elements)`; a failed flush leaves the row staged; every other failure leaves the file alone; empty `elements`, or unflushed data in the file, always fail |
| Handler.CSVHandler.AppendRow | src/MetricProvider/CSVHandler.cs:176-200 | append at the file length, then flush at that length plus the row's: on success the row is flushed after the old content; a failed flush leaves it staged; a failed append changes nothing; unflushed data in the file always fails |
| Handler.CSVHandler.Update | src/MetricProvider/CSVHandler.cs:98-128 | a failed GET changes nothing; otherwise the flag is Read's, and the file is rewritten with `UpdatedContent` of what was read (with the `CreateFile` outcome), or left alone with the update's exception |
| Handler.CSVHandler.Delete | src/MetricProvider/CSVHandler.cs:130-152 | the same, with `PrunedContent` |
| RemoteStore.RemoteFile.Get | src/MetricProvider/CSVHandler.cs:228-237 | GET returns the flushed content or fails |
| RemoteStore.RemoteFile.Create | src/MetricProvider/CSVHandler.cs:59-68 | a successful create empties the file, flushed and staged data alike; a failed one changes nothing |
| RemoteStore.RemoteFile.Append | src/MetricProvider/CSVHandler.cs:70-81 | a successful append stages the data and needs the position to be the end of all data written; flushed content is never changed |
| RemoteStore.RemoteFile.Flush | src/MetricProvider/CSVHandler.cs:83-94 | a successful flush commits all staged data and needs the position to be the full length |
| Text.Split | src/MetricProvider/CSVHandler.cs:239 | splitting yields at least one piece, and no piece holds a separator |
| Text.RemoveQuotes | src/MetricProvider/CSVHandler.cs:245 | the result holds no quote and is no longer than the input |
| Text.LastIndexOf | src/MetricProvider/CSVHandler.cs:33 | -1 exactly when the character is absent; otherwise the index holds it and no later index does |
| Text.SplitJoin | src/MetricProvider/CSVHandler.cs:245 | splitting a join on its delimiter gives the parts back, when no part holds the delimiter |
| Text.SplitAtSeparator | src/MetricProvider/CSVHandler.cs:239 | splitting at a separator splits the two sides independently |
| Text.RemoveQuotesJoin | src/MetricProvider/CSVHandler.cs:245 | removing quotes distributes over a join whose delimiter is not a quote |
| Text.JoinHoldsDelimiter | src/MetricProvider/CSVHandler.cs:33 | a join of two or more parts holds the delimiter, so is never empty |
| TableProperties.SerializeHeaderFirst | src/MetricProvider/CSVHandler.cs:28-33 | the text begins with the keys joined by the delimiter and "\n", then one line per row; no keys raise DelimiterNotFound |
| TableProperties.QuotingIsTransparent | src/MetricProvider/CSVHandler.cs:38-46 | what Read sees of an encoded cell does not depend on the decimal test |
| TableProperties.LineSnoc | src/MetricProvider/CSVHandler.cs:37-48 | a record line grows by the delimiter and one encoded cell per step |
| TableProperties.SerializeStep | src/MetricProvider/CSVHandler.cs:35-50 | each row adds exactly its first `keys.Count` cells, encoded, joined and ended by "\n" |
| TableProperties.SerializeRows | src/MetricProvider/CSVHandler.cs:26-53 | the header line followed by the lines of the first `j` rows is the text the serialiser has produced after `j` rows |
| TableProperties.SerializeAppendRow | src/MetricProvider/CSVHandler.cs:160-174 | Write's row is the line the serialiser emits for it, so serialised table plus row is the serialisation of the table with the row added |
| TableProperties.SplitConcatLines | src/MetricProvider/CSVHandler.cs:239 | splitting "\n"-terminated lines without line-break characters on the newline characters gives the lines back, followed by whatever trails the last terminator |
| TableProperties.HeaderCells | src/MetricProvider/CSVHandler.cs:245 | the header line parses back to its names |
| TableProperties.RecordCells | src/MetricProvider/CSVHandler.cs:245 | a record line parses back to its cells, quoted or not |
| TableProperties.ParseSerialize | src/MetricProvider/CSVHandler.cs:26-53 | round trip: a handler that has not read a header, reading the serialiser's output for a well-formed table, gets the same keys and rows in order and sets its flag |
| TableProperties.ParseLinesStep | src/MetricProvider/CSVHandler.cs:239-259 | Read's loop over the first `k + 1` lines is the loop over the first `k` followed by one `ParseStep`; while the flag is clear nothing has been read yet |
| TableProperties.NoBlankLinesFromParse | src/MetricProvider/CSVHandler.cs:28-50 | when `Decimal.TryParse("")` is false, the first key is not empty and every row has a cell, no serialised line is empty |
| TableProperties.ReadTwice | src/MetricProvider/CSVHandler.cs:246-257 | a second Read on the same handler returns no keys and the header line as the first row |
| TableProperties.WriteThenRead | src/MetricProvider/CSVHandler.cs:154-202 | reading after Write gives the same keys and the old rows followed by the new one |
| TableProperties.StickyFlagBlocksRewrite | src/MetricProvider/CSVHandler.cs:246-252 | with the flag already set, Update and Delete always raise DelimiterNotFound in the serialiser, before the file is touched |
| RowProperties.UpdateRowsPrefixError | src/MetricProvider/CSVHandler.cs:103-124 | once a row raises, the update raises that exception whatever follows |
| RowProperties.UpdateRowsStopsAt | src/MetricProvider/CSVHandler.cs:103-124 | the update raises the exception of the first row that raises |
| RowProperties.UpdateRowsRaisesLocally | src/MetricProvider/CSVHandler.cs:110-119 | the update raises only a bad identifier or a missing column |
| RowProperties.UpdateRowsSucceeds | src/MetricProvider/CSVHandler.cs:103-124 | the update succeeds exactly when every identifier parses and every matching row has every column the loop writes, or when there are no keys |
| RowProperties.UpdateRowsEffect | src/MetricProvider/CSVHandler.cs:106-122 | after a successful update, every matching row's column `i` with 1 <= `i` < `keys.Count` holds non-null `elements[i]`; column 0, every other cell and every other row are unchanged |
| RowProperties.UpdateNotFound | src/MetricProvider/CSVHandler.cs:103-127 | with no match the rows are unchanged, and the file is still rewritten with its serialisation |
| RowProperties.UpdateShortElements | src/MetricProvider/CSVHandler.cs:117 | `[null, b]` on a three-column file raises at a matching row |
| RowProperties.UpdateThenRead | src/MetricProvider/CSVHandler.cs:98-128 | reading the rewritten file gives the same keys and the updated rows |
| RowProperties.UpdatedRowWellFormed | src/MetricProvider/CSVHandler.cs:117-119 | a row overwritten with clean elements keeps its length and stays clean |
| RowProperties.KeptAppend | src/MetricProvider/CSVHandler.cs:135-148 | the surviving rows keep their relative order |
| RowProperties.KeptCounts | src/MetricProvider/CSVHandler.cs:135-148 | every matching row disappears; every other row keeps its number of copies |
| RowProperties.KeptAll | src/MetricProvider/CSVHandler.cs:135-148 | with no matching row nothing is removed |
| RowProperties.ScanErrorNone | src/MetricProvider/CSVHandler.cs:141 | the backward scan raises exactly when some identifier does not parse |
| RowProperties.DeleteRowsRaisesLocally | src/MetricProvider/CSVHandler.cs:141 | Delete's pass raises only a bad identifier |
| RowProperties.ScanErrorLastBad | src/MetricProvider/CSVHandler.cs:135-141 | the exception raised is that of the last row whose identifier does not parse |
| RowProperties.DeleteRowsEffect | src/MetricProvider/CSVHandler.cs:135-148 | Delete succeeds exactly when every identifier parses; then no matching row survives and every other row keeps its count |
| RowProperties.KeptBackwardStep | src/MetricProvider/CSVHandler.cs:135-148 | one step of the backward scan, removing row `j` when it matches and keeping it otherwise, extends the surviving suffix by that row |
| RowProperties.KeptDropsOne | src/MetricProvider/CSVHandler.cs:135-148 | when exactly one row matches, the survivors are all the other rows in order |
| RowProperties.DeleteUnique | src/MetricProvider/CSVHandler.cs:135-148 | with a unique match exactly that row is removed |
| RowProperties.DeleteDuplicates | src/MetricProvider/CSVHandler.cs:141-144 | two rows with the same identifier are both removed |
| RowProperties.DeleteThenRead | src/MetricProvider/CSVHandler.cs:130-152 | reading the rewritten file gives the same keys and the surviving rows |

## Left out

- HTTP, authentication and asynchrony are not modelled. This covers the `HttpClient`, the bearer header, status codes and `ReasonPhrase`, and `async`/`await`. Each request is one call on `RemoteFile` that may fail, and its failure is `RequestFailed` naming the request.
- Handler.CSVHandler.Write, Handler.CSVHandler.CreateFile: lengths and offsets are counted in characters. The code passes UTF-16 `Length` values as byte positions, so non-ASCII content would make the real store refuse the append or flush. The model cannot see that.
- `Decimal.TryParse`, `Guid.Parse` and `Environment.NewLine` are parameters with no content. Culture-dependent parsing is not modelled.
- `String.LastIndexOf(string)` is culture-sensitive; it is modelled as an ordinal search for the one delimiter character.
- The plugins (`RetrievePlugin.cs`, `RetrieveMultiplePlugin.cs`, `CreatePlugin.cs`, `UpdatePlugin.cs`, `DeletePlugin.cs`) are not part of this model. They are host-framework glue that build handlers and map rows to host entities.
- `Connection.cs` is not part of this model. It performs the OAuth token request.
- `scripts/helper.py` is not part of this model. It is the deployment tool.
- `interfaces/IHandler.cs` holds only signatures; the class's methods mirror it.
- Handler.CSVHandler.Write, Handler.CSVHandler.AppendRow, RemoteStore.RemoteFile.Append, RemoteStore.RemoteFile.Flush: "append and flush succeed only at the end of all data written" is an assumption about the store. The code shows only that it sends one position with each request. Write's promise that unflushed data in the file makes it fail, and the flush-failure case of `AppendOutcome`, rest on that assumption.
- Concurrent writers are not modelled. The code has no locking, and each method is a sequence of requests on one file.
- Handler.CSVHandler.Write: the code does not compare the number of elements with the number of columns, and neither does the model. `WriteThenRead` therefore asks for a row as wide as the keys.
- The `List` objects Read returns are modelled as values. Update's in-place change of `value[i]` becomes a new `values` sequence inside `ApplyUpdate`, which is what every later step observes.
