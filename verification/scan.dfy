/** The range-scan continuation protocol of `scan` (index.go:72-99): page
    through [startRow, stopRow) ten rows at a time, resuming each page from
    the closest row after the last row returned, until a page comes back
    empty. */
module ScanEngine {
  import opened Wrappers
  import opened RowKeys
  import opened KeyRange

  /** `caching`, the page size asked of every call (index.go:76). */
  const Caching: nat := 10

  /** One GetScannerResults call: the table, the TScan's start and stop rows,
      and the page size. */
  datatype ScanCall = ScanCall(table: Bytes, startRow: Bytes, stopRow: Bytes, caching: nat)

  /** The remote GetScannerResults call, as a function of its arguments. */
  type ScanBackend = ScanCall -> Result<seq<Bytes>, string>

  /** The reply the backend gives to call c. Stating `Serves` over this name
      keeps its quantifier to the proofs that mention a reply by it. */
  function Reply(backend: ScanBackend, c: ScanCall): Result<seq<Bytes>, string>
  {
    backend(c)
  }

  /** The backend holds the table's row keys in strictly ascending order and
      answers every call of this scan (same table, same stop row) that
      succeeds with the page of those keys the call asks for; any call may
      fail instead. */
  ghost predicate Serves(backend: ScanBackend, table: Bytes, stopRow: Bytes, keys: seq<Bytes>)
  {
    && StrictlySorted(keys)
    && forall c: ScanCall {:trigger Reply(backend, c)} ::
         c.table == table && c.stopRow == stopRow && Reply(backend, c).Success? ==>
         Reply(backend, c).value == Page(keys, c.startRow, c.stopRow, c.caching)
  }

  /** The rows the loop sees from one reply: the error is discarded
      (index.go:82), so a failed call contributes no rows. */
  function Rows(reply: Result<seq<Bytes>, string>): seq<Bytes>
  {
    if reply.Success? then reply.value else []
  }

  function Last(rows: seq<Bytes>): Bytes
    requires |rows| > 0
  {
    rows[|rows| - 1]
  }

  /** Concatenation regroups; stated apart so that the scan step's larger
      proof context does not have to rediscover it. */
  lemma AppendAssoc(a: seq<Bytes>, b: seq<Bytes>, c: seq<Bytes>)
    ensures (a + b) + c == a + (b + c)
  {
  }

  /** The call that follows a non-empty page: same table, stop row and page
      size, starting from the closest row after the page's last row
      (index.go:91-93). */
  function ResumeCall(table: Bytes, page: seq<Bytes>, stopRow: Bytes): ScanCall
    requires |page| > 0
  {
    ScanCall(table, ClosestRowAfter(Last(page)), stopRow, Caching)
  }

  /** The pages laid end to end, in the order they were fetched. */
  function Flatten(pages: seq<seq<Bytes>>): seq<Bytes>
  {
    if |pages| == 0 then [] else Flatten(pages[..|pages| - 1]) + pages[|pages| - 1]
  }

  lemma FlattenSnoc(pages: seq<seq<Bytes>>, page: seq<Bytes>)
    ensures Flatten(pages + [page]) == Flatten(pages) + page
  {
    assert (pages + [page])[..|pages|] == pages;
  }

  /** The inner loop of index.go:83-86: append every row of the page to the
      accumulated results and remember the last one (nil for an empty page). */
  method AppendPage(before: seq<Bytes>, currentResults: seq<Bytes>)
    returns (scanResults: seq<Bytes>, lastResult: Option<Bytes>)
    ensures scanResults == before + currentResults
    ensures lastResult == None <==> currentResults == []
    ensures lastResult.Some? ==> lastResult.value == Last(currentResults)
  {
    scanResults := before;
    lastResult := None;
    var j := 0;
    while j < |currentResults|
      invariant 0 <= j <= |currentResults|
      invariant scanResults == before + currentResults[..j]
      invariant lastResult == if j == 0 then None else Some(currentResults[j - 1])
    {
      lastResult := Some(currentResults[j]);
      scanResults := scanResults + [currentResults[j]];
      j := j + 1;
    }
    assert currentResults[..j] == currentResults;
  }

  /** One round of the loop against a sorted key set: an empty page means
      nothing is left in the range; a non-empty page is the front of what is
      left, and resuming from the closest row after its last row leaves
      exactly the rest, which is strictly shorter. */
  lemma PageStep(keys: seq<Bytes>, current: Bytes, stopRow: Bytes, page: seq<Bytes>)
    requires StrictlySorted(keys)
    requires page == Page(keys, current, stopRow, Caching)
    ensures page == [] ==> Range(keys, current, stopRow) == []
    ensures page != [] ==>
              && Range(keys, current, stopRow) == page + Range(keys, ClosestRowAfter(Last(page)), stopRow)
              && |Range(keys, ClosestRowAfter(Last(page)), stopRow)| < |Range(keys, current, stopRow)|
  {
    var remaining := Range(keys, current, stopRow);
    PageShape(keys, current, stopRow, Caching);
    if page != [] {
      var m := |page|;
      assert page == remaining[..m];
      ResumeAfterPage(keys, current, stopRow, m);
      assert remaining == page + remaining[m..];
    }
  }

  /** The continuation protocol as a trace of calls and the page each one
      yielded, read from the last call back: the first call covers
      [startRow, stopRow) with the fixed page size; only a non-empty page is
      followed by another call, which resumes from the closest row after that
      page's last row with the same stop row; and every page is what its
      call returned, an error counting as no rows (index.go:79-95). */
  ghost predicate IsScanTrace(table: Bytes, startRow: Bytes, stopRow: Bytes, backend: ScanBackend,
                              calls: seq<ScanCall>, pages: seq<seq<Bytes>>)
    decreases |calls|
  {
    && |calls| == |pages|
    && (|calls| > 0 ==>
          var n := |calls| - 1;
          && IsScanTrace(table, startRow, stopRow, backend, calls[..n], pages[..n])
          && (n == 0 ==> calls[n] == ScanCall(table, startRow, stopRow, Caching))
          && (n > 0 ==> pages[n - 1] != [] && calls[n] == ResumeCall(table, pages[n - 1], stopRow))
          && pages[n] == Rows(backend(calls[n])))
  }

  /** Appending the next call of the protocol and its page keeps a trace. */
  lemma TraceExtend(table: Bytes, startRow: Bytes, stopRow: Bytes, backend: ScanBackend,
                    calls: seq<ScanCall>, pages: seq<seq<Bytes>>, call: ScanCall)
    requires IsScanTrace(table, startRow, stopRow, backend, calls, pages)
    requires |calls| == 0 ==> call == ScanCall(table, startRow, stopRow, Caching)
    requires |calls| > 0 ==> pages[|pages| - 1] != [] && call == ResumeCall(table, pages[|pages| - 1], stopRow)
    ensures IsScanTrace(table, startRow, stopRow, backend, calls + [call], pages + [Rows(backend(call))])
  {
    var calls', pages' := calls + [call], pages + [Rows(backend(call))];
    assert calls'[..|calls|] == calls && pages'[..|pages|] == pages;
  }

  /** The trace, call by call: call i is the first call or the resumption
      after a non-empty page i - 1, and page i is what call i returned. */
  lemma {:induction false} TraceAt(table: Bytes, startRow: Bytes, stopRow: Bytes, backend: ScanBackend,
                                   calls: seq<ScanCall>, pages: seq<seq<Bytes>>, i: nat)
    requires IsScanTrace(table, startRow, stopRow, backend, calls, pages)
    requires i < |calls|
    ensures i == 0 ==> calls[i] == ScanCall(table, startRow, stopRow, Caching)
    ensures i > 0 ==> pages[i - 1] != [] && calls[i] == ResumeCall(table, pages[i - 1], stopRow)
    ensures pages[i] == Rows(backend(calls[i]))
    decreases |calls|
  {
    var n := |calls| - 1;
    if i < n {
      TraceAt(table, startRow, stopRow, backend, calls[..n], pages[..n], i);
      assert calls[..n][i] == calls[i] && pages[..n][i] == pages[i];
      if i > 0 {
        assert pages[..n][i - 1] == pages[i - 1];
      }
    }
  }

  /** Where the next call starts: startRow at first, then the closest row
      after the last row of the latest page. */
  function NextStart(startRow: Bytes, pages: seq<seq<Bytes>>): Bytes
    requires |pages| > 0 ==> pages[|pages| - 1] != []
  {
    if |pages| == 0 then startRow else ClosestRowAfter(Last(pages[|pages| - 1]))
  }

  /** What holds at the top of every round of the scan loop: the calls so far
      form a trace whose last page was non-empty, `current` is where the
      next call starts, the results are those pages laid end to end, and
      together with what is left of the range from `current` they make up
      the whole range. */
  ghost predicate ScanProgress(table: Bytes, startRow: Bytes, stopRow: Bytes, backend: ScanBackend, keys: seq<Bytes>,
                               calls: seq<ScanCall>, pages: seq<seq<Bytes>>, current: Bytes, scanResults: seq<Bytes>)
  {
    && IsScanTrace(table, startRow, stopRow, backend, calls, pages)
    && (|pages| > 0 ==> pages[|pages| - 1] != [])
    && current == NextStart(startRow, pages)
    && scanResults == Flatten(pages)
    && scanResults + Range(keys, current, stopRow) == Range(keys, startRow, stopRow)
  }

  /** One round of the scan loop: the call from `current` extends the trace.
      An empty page leaves the results a prefix of the range, the whole
      range when the call succeeded; a non-empty page re-establishes the
      loop's progress from the closest row after its last row, with strictly
      less of the range left. */
  lemma ScanStep(table: Bytes, startRow: Bytes, stopRow: Bytes, backend: ScanBackend, keys: seq<Bytes>,
                 calls: seq<ScanCall>, pages: seq<seq<Bytes>>, current: Bytes, scanResults: seq<Bytes>)
    requires Serves(backend, table, stopRow, keys)
    requires ScanProgress(table, startRow, stopRow, backend, keys, calls, pages, current, scanResults)
    ensures var call := ScanCall(table, current, stopRow, Caching);
            var page := Rows(backend(call));
            && IsScanTrace(table, startRow, stopRow, backend, calls + [call], pages + [page])
            && scanResults + page == Flatten(pages + [page])
            && (page == [] ==> scanResults <= Range(keys, startRow, stopRow))
            && (page == [] && backend(call).Success? ==> scanResults == Range(keys, startRow, stopRow))
            && (page != [] ==>
                  var next := ClosestRowAfter(Last(page));
                  && ScanProgress(table, startRow, stopRow, backend, keys, calls + [call], pages + [page], next, scanResults + page)
                  && |Range(keys, next, stopRow)| < |Range(keys, current, stopRow)|)
  {
    var call := ScanCall(table, current, stopRow, Caching);
    var page := Rows(backend(call));
    TraceExtend(table, startRow, stopRow, backend, calls, pages, call);
    FlattenSnoc(pages, page);
    assert Reply(backend, call) == backend(call);
    if page == [] {
      if backend(call).Success? {
        PageStep(keys, current, stopRow, page);
      }
    } else {
      assert backend(call).Success?;
      PageStep(keys, current, stopRow, page);
      var rest := Range(keys, ClosestRowAfter(Last(page)), stopRow);
      AppendAssoc(scanResults, page, rest);
    }
  }

  /** The scan made at least one call and the last one did not fail, so
      its empty page means the range was exhausted. */
  predicate FinalCallSucceeded(backend: ScanBackend, calls: seq<ScanCall>)
  {
    |calls| > 0 && backend(calls[|calls| - 1]).Success?
  }

  /** scan (index.go:72-99). Besides the accumulated rows it returns the calls
      it made and the page each call yielded. The calls follow the
      continuation protocol and stop at the first page with no rows (a failed
      call included); the result is the pages laid end to end. Against a
      backend that serves a sorted key set, the result is always a prefix of
      the keys in [startRow, stopRow), and all of them when the final call
      succeeded. The returned error is always nil. `keys`, the table's stored
      row keys, is read only by the contract and the proof. */
  method Scan(table: Bytes, startRow: Bytes, stopRow: Bytes, backend: ScanBackend, keys: seq<Bytes>)
    returns (err: Option<string>, scanResults: seq<Bytes>, calls: seq<ScanCall>, pages: seq<seq<Bytes>>)
    requires Serves(backend, table, stopRow, keys)
    ensures err == None
    ensures IsScanTrace(table, startRow, stopRow, backend, calls, pages)
    ensures |pages| > 0 && pages[|pages| - 1] == []
    ensures scanResults == Flatten(pages)
    ensures scanResults <= Range(keys, startRow, stopRow)
    ensures FinalCallSucceeded(backend, calls) ==> scanResults == Range(keys, startRow, stopRow)
  {
    err := None;
    scanResults := [];
    calls := [];
    pages := [];
    var current := startRow;
    while true
      invariant ScanProgress(table, startRow, stopRow, backend, keys, calls, pages, current, scanResults)
      decreases |Range(keys, current, stopRow)|
    {
      var call := ScanCall(table, current, stopRow, Caching);
      var reply := backend(call);
      var currentResults := Rows(reply);
      ScanStep(table, startRow, stopRow, backend, keys, calls, pages, current, scanResults);
      var lastResult;
      scanResults, lastResult := AppendPage(scanResults, currentResults);
      calls := calls + [call];
      pages := pages + [currentResults];
      if lastResult == None {
        break;
      }
      current := CreateClosestRowAfter(lastResult.value);
    }
  }

  /** The error of the last call, if it failed. */
  function FinalError(backend: ScanBackend, calls: seq<ScanCall>): Option<string>
  {
    if |calls| > 0 && backend(calls[|calls| - 1]).Failure? then Some(backend(calls[|calls| - 1]).error) else None
  }

  /** What scan does when a call fails part-way (index.go:82, 87-88): with
      more than one page of keys in range, a backend that answers the first
      call and fails every other one leaves the scan with the first page
      only, a strict prefix of the range, although scan returns nil. */
  lemma DiscardedFailureTruncates(table: Bytes, startRow: Bytes, stopRow: Bytes, backend: ScanBackend, keys: seq<Bytes>,
                                  scanResults: seq<Bytes>, calls: seq<ScanCall>, pages: seq<seq<Bytes>>)
    requires Serves(backend, table, stopRow, keys)
    requires Caching < |Range(keys, startRow, stopRow)|
    requires backend(ScanCall(table, startRow, stopRow, Caching)).Success?
    requires forall c :: c != ScanCall(table, startRow, stopRow, Caching) ==> backend(c).Failure?
    requires IsScanTrace(table, startRow, stopRow, backend, calls, pages)
    requires |pages| > 0 && pages[|pages| - 1] == []
    requires scanResults == Flatten(pages)
    ensures scanResults == Range(keys, startRow, stopRow)[..Caching]
    ensures scanResults < Range(keys, startRow, stopRow)
  {
    var first := ScanCall(table, startRow, stopRow, Caching);
    var r := Range(keys, startRow, stopRow);
    TraceAt(table, startRow, stopRow, backend, calls, pages, 0);
    assert Reply(backend, first) == backend(first);
    assert pages[0] == r[..Caching];
    assert |pages| > 1;
    TraceAt(table, startRow, stopRow, backend, calls, pages, 1);
    StartMovesForward(keys, startRow, stopRow, pages[0]);
    assert calls[1] != first;
    if |pages| > 2 {
      TraceAt(table, startRow, stopRow, backend, calls, pages, 2);
      assert false;
    }
    assert pages == [pages[0], pages[1]];
    FlattenPair(pages[0], pages[1]);
  }

  /** Resuming after a page of the range starts strictly above the range's
      start row. */
  lemma StartMovesForward(keys: seq<Bytes>, startRow: Bytes, stopRow: Bytes, page: seq<Bytes>)
    requires |page| > 0 && Last(page) in Range(keys, startRow, stopRow)
    ensures Less(startRow, ClosestRowAfter(Last(page)))
    ensures ClosestRowAfter(Last(page)) != startRow
  {
    var last := Last(page);
    RangeMembers(keys, startRow, stopRow, last);
    ClosestRowAfterIsImmediateSuccessor(last);
    if startRow != last {
      LessTransitive(startRow, last, ClosestRowAfter(last));
    }
    LessIrreflexive(startRow);
  }

  lemma FlattenPair(a: seq<Bytes>, b: seq<Bytes>)
    ensures Flatten([a, b]) == a + b
  {
    FlattenSnoc([a], b);
    FlattenSnoc([], a);
    assert [a] + [b] == [a, b];
    assert [] + [a] == [a];
  }

  /** scan with the failure reported instead of discarded: it stops at the
      first empty page like scan, and returns the error of the call that
      produced it, if that call failed. A nil error then means every key of
      [startRow, stopRow) was read. */
  method ScanReportingFailure(table: Bytes, startRow: Bytes, stopRow: Bytes, backend: ScanBackend, keys: seq<Bytes>)
    returns (err: Option<string>, scanResults: seq<Bytes>, calls: seq<ScanCall>, pages: seq<seq<Bytes>>)
    requires Serves(backend, table, stopRow, keys)
    ensures IsScanTrace(table, startRow, stopRow, backend, calls, pages)
    ensures |pages| > 0 && pages[|pages| - 1] == []
    ensures scanResults == Flatten(pages)
    ensures scanResults <= Range(keys, startRow, stopRow)
    ensures err == FinalError(backend, calls)
    ensures err == None ==> scanResults == Range(keys, startRow, stopRow)
  {
    err := None;
    scanResults := [];
    calls := [];
    pages := [];
    var current := startRow;
    while true
      invariant ScanProgress(table, startRow, stopRow, backend, keys, calls, pages, current, scanResults)
      decreases |Range(keys, current, stopRow)|
    {
      var call := ScanCall(table, current, stopRow, Caching);
      var reply := backend(call);
      var currentResults := Rows(reply);
      ScanStep(table, startRow, stopRow, backend, keys, calls, pages, current, scanResults);
      var lastResult;
      scanResults, lastResult := AppendPage(scanResults, currentResults);
      calls := calls + [call];
      pages := pages + [currentResults];
      if lastResult == None {
        if reply.Failure? {
          err := Some(reply.error);
        }
        break;
      }
      current := CreateClosestRowAfter(lastResult.value);
    }
  }

  /** The rows of a scan that ran to completion are the stored keys of
      [startRow, stopRow), each exactly once and in ascending order. */
  lemma CompletedScanIsExact(keys: seq<Bytes>, startRow: Bytes, stopRow: Bytes, scanResults: seq<Bytes>)
    requires StrictlySorted(keys)
    requires scanResults == Range(keys, startRow, stopRow)
    ensures StrictlySorted(scanResults)
    ensures forall k :: k in scanResults <==> k in keys && InRange(k, startRow, stopRow)
  {
    RangeSorted(keys, startRow, stopRow);
    forall k
      ensures k in scanResults <==> k in keys && InRange(k, startRow, stopRow)
    {
      RangeMembers(keys, startRow, stopRow, k);
    }
  }
}
