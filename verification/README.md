# ali-hbase-demo client core, modelled in Dafny

The Go demo client (`index.go`) talks to an HBase-compatible wide-column
service over Thrift. This project models the parts of it that carry logic:

- **closest row after** (`createClosestRowAfter`): the successor key a range
  scan resumes from, the row with one `0x00` byte appended, proved to be the
  immediate successor of the row in byte-lexicographic order;
- **the range-scan continuation protocol** (`scan`): ask for ten rows of
  `[startRow, stopRow)`, append them, resume from the closest row after the
  last one, and stop at the first empty page. Against a backend that holds a
  strictly sorted key set, the scan terminates. Its result is the keys of the
  range in order, each exactly once, or a prefix of them when a call failed;
- **the batched read fold** (`getMultiple`): fail-fast on a nil row key,
  otherwise a map from each returned row key to its first cell's value, the
  later duplicate winning;
- **the batched write request** (`putMultiple`): one put per map entry under
  column `cf:a`, in whatever order the map is visited, with the backend error
  wrapped;
- **the input-file loop of `main`**: `strings.Split` on `,`, the row list and
  the key-to-value map.

Go strings and byte slices are both byte strings and are modelled as
`seq<bv8>` (`RowKeys.Bytes`); error texts are Dafny strings. Each Thrift call
(`GetScannerResults`, `GetMultiple`, `PutMultiple`) is a function parameter
of the method that issues it, so the model says what the client does with
any reply; each receives the table name the code passes. For the scan, the
backend is additionally required (`Serves`) to answer every successful call
of that scan (same table, same stop row) with the first `caching` keys of a
strictly sorted key set that lie in `[start, stop)`. Any call may still fail.

Modules: `Wrappers` (Option, Result), `RowKeys` (byte order and successor),
`KeyRange` (sorted key set, ranges, pages), `ScanEngine` (the scan loop),
`HBaseTypes` (the Thrift records used), `BatchGet`, `BatchPut`,
`InputLines`.

## Model

| member | source | states |
|---|---|---|
| RowKeys.CreateClosestRowAfter | index.go:103-111 | The copy loop yields a slice one byte longer than the row, with the row as its prefix, ending in 0x00, and strictly greater than the row. |
| RowKeys.ClosestRowAfterIsImmediateSuccessor | index.go:101-109 | The closest row after is greater than the row. A key is greater than the row exactly when it is at least the closest row after. So no key lies strictly between the two. |
| KeyRange.ResumeAfterPage | index.go:91-93 | In a strictly sorted key set, the range that restarts at the closest row after the m-th key of the current range is exactly the rest of that range. |
| ScanEngine.AppendPage | index.go:83-86 | The inner loop appends the whole page to the results. It leaves lastResult nil exactly when the page is empty, and otherwise the page's last row. |
| ScanEngine.PageStep | index.go:87-93 | An empty page means no key is left in the range. A non-empty page is the front of the remaining range. Resuming after its last row leaves exactly the rest, which is strictly shorter: this is the scan's termination measure. |
| ScanEngine.TraceAt | index.go:79-95 | Read call by call, a scan trace starts with the call for [startRow, stopRow) with page size 10. Each later call follows a non-empty page and starts at the closest row after that page's last row. Each page is what its call returned. |
| ScanEngine.ScanStep | index.go:79-95 | One round of the loop extends the trace by the call from the current start row. An empty page ends the scan with a prefix of the range, the whole range when the call succeeded. A non-empty page moves the start to the closest row after its last row, and strictly less of the range is left. |
| ScanEngine.Scan | index.go:72-99 | The first call asks for [startRow, stopRow) with page size 10. Every further call follows a non-empty page and starts at the closest row after that page's last row, with the same stop row and page size. A failed call yields no rows. The loop ends at the first empty page. The result is the pages concatenated in order. It is always a prefix of the stored keys in range, and all of them when the final call succeeded. The returned error is always nil. |
| ScanEngine.CompletedScanIsExact | index.go:87 | The rows of a completed scan are strictly ascending, hence free of duplicates. A key is among them exactly when it is stored and lies in [startRow, stopRow). |
| ScanEngine.DiscardedFailureTruncates | index.go:82-88 | With more than ten keys in range, a backend that answers the first call and fails every other one leaves scan with exactly the first ten keys, a strict prefix of the range, although scan's error is nil. |
| BatchGet.BuildGets | index.go:160-163 | One get per requested row, in request order. |
| BatchGet.FoldResults | index.go:169-179 | Fails with "error GetMultiple: row is nil" and no map exactly when some returned row key is nil. Otherwise the map's keys are exactly the returned row keys. Each key maps to the first cell value of the last result carrying it. |
| BatchGet.FoldIsDetermined | index.go:169-179 | When no row key is nil and every result has a cell, at most one map fits the fold's description. So FoldResults' contract fixes its map completely. |
| BatchGet.GetMultiple | index.go:157-180 | A backend error is returned unchanged with no map. Otherwise the result is the fold of the reply, and an error and a map never come together. |
| BatchPut.BuildPuts | index.go:199-207 | For any visiting order of the map, the puts number exactly the entries and no row repeats. Each put is the entry's row with one cell cf:a holding its value. Every entry has its put. Applying the puts to an empty table gives back the map. |
| BatchPut.PutMultiple | index.go:197-216 | The built puts go to the backend. Its error comes back prefixed with "error PutMultiple: ", and success comes back as nil. |
| InputLines.SplitShape | index.go:45 | Splitting on a byte yields at least one field, and no field contains the separator. There are at least two fields exactly when the separator occurs. |
| InputLines.SplitJoin | index.go:45 | Joining the fields of a split, with the separator between each two, restores the line. |
| InputLines.JoinThenSplit | index.go:45 | Splitting the join of separator-free fields gives those fields back. |
| InputLines.KeyValueLine | index.go:45-50 | A line key,value with no comma in key or value splits into exactly [key, value]. |
| InputLines.LoadLines | index.go:43-51 | Every line adds its first field to the row list, in order. The map's keys are exactly those rows. Each row maps to the second field of the last line carrying it. The lines reported as malformed are exactly those that do not split into two fields. |

## Left out

- `createHbaseClient`, the Thrift HTTP transport and the two credential headers (index.go:218-239): network set-up over generated stubs that are not part of this model.
- Environment configuration and the `HOST`/`USER`/`PASSWORD` check (index.go:16-27), opening and reading the input file, `scanner.Err()`, and every `fmt` print: I/O only. The rows `scan` prints are returned as `scanResults` instead.
- The comparison loop at the end of `main` (index.go:56-67) and the `client.get("test", "1")` call (index.go:32): they only print.
- `get`, `put`, `createNS` and `createTable` (index.go:114-154, 183-194): single pass-through calls whose only logic is printing.
- Backend semantics the code does not show. An empty `stopRow`, which the service reads as "no upper bound", is taken literally by the sorted-key-set backend: nothing lies below an empty key, so the range is empty. `Serves` only constrains calls with the scan's own stop row, so this affects only scans whose `stopRow` is empty. Column values of scanned rows are not modelled, because `scan` only reads their row keys.
- ScanEngine.Scan: a reply that carries rows and an error at once is not modelled. A failed call is taken to return no rows, as the generated Thrift client does.
- ScanEngine.Scan: the page size is the constant 10 of index.go:76, held as an unbounded `nat`. The `int32` conversion changes nothing for that value.
- BatchGet.GetMultiple, BatchGet.FoldResults: `ColumnValues[0]` is read without a check (index.go:176), and a result without a cell would panic. The model requires that every result up to the first nil row key has a cell.
- InputLines.LoadLines: a line without a comma makes `res[1]` (index.go:49) index out of range. The model requires a comma on every line. The code reports a line that does not split into exactly two fields but does not skip it. It still stores the first two fields, and the model follows the code here.
- Go's map iteration order in `putMultiple` is not fixed: `BuildPuts` picks any unvisited entry at each step and states its result for every such order.

## Findings

| source | as written | input that shows it | evidently intended | confidence | as-written member | corrected member |
|---|---|---|---|---|---|---|
| index.go:82-88 | The error of `GetScannerResults` is discarded, so a failed call looks like an empty page. The loop then stops and `scan` returns nil, while the comment at index.go:87 says an empty page means every row of [startRow, stopRow) was read. | A table with eleven keys in range whose backend answers the first call and fails the second: the scan holds ten rows and returns nil. | A failed call is reported as the scan's error, so a nil error means every key of the range was read. | not executed | ScanEngine.DiscardedFailureTruncates | ScanEngine.ScanReportingFailure |
