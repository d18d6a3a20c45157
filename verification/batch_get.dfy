/** getMultiple (index.go:157-180): one batched read, folded into a map from
    row key to the value of the row's first cell. */
module BatchGet {
  import opened Wrappers
  import opened RowKeys
  import opened HBaseTypes

  /** The error getMultiple reports for a returned row whose key is nil. */
  const RowIsNil: string := "error GetMultiple: row is nil"

  /** The remote GetMultiple call, as a function of the table and the gets
      it is sent. */
  type GetBackend = (Bytes, seq<TGet>) -> Result<seq<TResult>, string>

  /** No result before position n has a nil row key. */
  ghost predicate NoNilBefore(results: seq<TResult>, n: int)
  {
    forall j :: 0 <= j < n && j < |results| ==> results[j].row.Some?
  }

  /** The fold reads `ColumnValues[0]` of every result it reaches without
      checking that there is one (index.go:176); it reaches each result up to
      the first nil row key. This is what the fold needs not to panic. */
  ghost predicate ReadableUntilNil(results: seq<TResult>)
  {
    forall i :: 0 <= i < |results| && NoNilBefore(results, i + 1) ==> |results[i].columnValues| > 0
  }

  /** No later result carries the same row key as result i (among the first n). */
  ghost predicate LastWithKey(results: seq<TResult>, i: int, n: int)
    requires 0 <= i < |results|
  {
    forall j :: i < j < n && j < |results| ==> results[j].row != results[i].row
  }

  /** The non-nil row keys among the first n results. */
  ghost function KeysOf(results: seq<TResult>, n: int): set<Bytes>
  {
    set j | 0 <= j < n && j < |results| && results[j].row.Some? :: results[j].row.value
  }

  /** m is what folding the results yields: exactly the returned row keys,
      each mapped to the first cell value of the last result carrying it. */
  ghost predicate IsFoldOf(m: map<Bytes, Bytes>, results: seq<TResult>)
  {
    && m.Keys == KeysOf(results, |results|)
    && forall i :: 0 <= i < |results| && LastWithKey(results, i, |results|)
                   && results[i].row.Some? && |results[i].columnValues| > 0 ==>
         m[results[i].row.value] == results[i].columnValues[0].value
  }

  /** One get per requested row, in the order requested. */
  function GetsFor(rows: seq<Bytes>): seq<TGet>
  {
    seq(|rows|, i requires 0 <= i < |rows| => TGet(rows[i]))
  }

  /** Every returned row key has a last result carrying it. */
  lemma {:induction false} LastResultWithKey(results: seq<TResult>, j: int)
    requires 0 <= j < |results|
    ensures exists i :: j <= i < |results| && results[i].row == results[j].row && LastWithKey(results, i, |results|)
    decreases |results| - j
  {
    if !LastWithKey(results, j, |results|) {
      var later :| j < later < |results| && results[later].row == results[j].row;
      LastResultWithKey(results, later);
    }
  }

  /** When every row key is present and every result has a cell, IsFoldOf
      leaves no freedom: at most one map is the fold of the results. */
  lemma FoldIsDetermined(m1: map<Bytes, Bytes>, m2: map<Bytes, Bytes>, results: seq<TResult>)
    requires NoNilBefore(results, |results|) && ReadableUntilNil(results)
    requires IsFoldOf(m1, results) && IsFoldOf(m2, results)
    ensures m1 == m2
  {
    forall k | k in m1
      ensures k in m2 && m1[k] == m2[k]
    {
      var j :| 0 <= j < |results| && results[j].row.Some? && results[j].row.value == k;
      LastResultWithKey(results, j);
      var i :| j <= i < |results| && results[i].row == results[j].row && LastWithKey(results, i, |results|);
      assert NoNilBefore(results, i + 1);
    }
  }

  /** The gets built from the requested rows, one per row in order
      (index.go:160-163). */
  method BuildGets(rows: seq<Bytes>) returns (gets: seq<TGet>)
    ensures |gets| == |rows|
    ensures forall i :: 0 <= i < |rows| ==> gets[i] == TGet(rows[i])
  {
    gets := [];
    var i := 0;
    while i < |rows|
      invariant 0 <= i <= |rows|
      invariant |gets| == i
      invariant forall j :: 0 <= j < i ==> gets[j] == TGet(rows[j])
    {
      gets := gets + [TGet(rows[i])];
      i := i + 1;
    }
  }

  /** The fold of index.go:169-179 over a successful reply: fails as soon as
      it meets a nil row key, discarding what it had; otherwise maps every
      returned row key to its first cell's value, a later result with the
      same key overwriting an earlier one. */
  method FoldResults(results: seq<TResult>) returns (err: Option<string>, data: Option<map<Bytes, Bytes>>)
    requires ReadableUntilNil(results)
    ensures err.Some? <==> data.None?
    ensures err.Some? <==> !NoNilBefore(results, |results|)
    ensures err.Some? ==> err.value == RowIsNil
    ensures data.Some? ==> IsFoldOf(data.value, results)
  {
    var m: map<Bytes, Bytes> := map[];
    var i := 0;
    while i < |results|
      invariant 0 <= i <= |results|
      invariant NoNilBefore(results, i)
      invariant m.Keys == KeysOf(results, i)
      invariant forall j :: 0 <= j < i && LastWithKey(results, j, i) ==>
                  m[results[j].row.value] == results[j].columnValues[0].value
    {
      if results[i].row.None? {
        return Some(RowIsNil), None;
      }
      var k := results[i].row.value;
      var v := results[i].columnValues[0].value;
      m := m[k := v];
      i := i + 1;
    }
    return None, Some(m);
  }

  /** getMultiple (index.go:157-180): builds the gets, issues one batched
      call, returns the backend's error unchanged with no map, and otherwise
      the fold of the reply. */
  method GetMultiple(table: Bytes, rows: seq<Bytes>, backend: GetBackend)
    returns (gets: seq<TGet>, err: Option<string>, data: Option<map<Bytes, Bytes>>)
    requires backend(table, GetsFor(rows)).Success? ==> ReadableUntilNil(backend(table, GetsFor(rows)).value)
    ensures |gets| == |rows| && forall i :: 0 <= i < |rows| ==> gets[i] == TGet(rows[i])
    ensures err.Some? <==> data.None?
    ensures backend(table, gets).Failure? ==> err == Some(backend(table, gets).error)
    ensures backend(table, gets).Success? ==>
              var results := backend(table, gets).value;
              && (err.Some? <==> !NoNilBefore(results, |results|))
              && (err.Some? ==> err.value == RowIsNil)
              && (data.Some? ==> IsFoldOf(data.value, results))
  {
    gets := BuildGets(rows);
    assert gets == GetsFor(rows);
    var reply := backend(table, gets);
    if reply.Failure? {
      return gets, Some(reply.error), None;
    }
    err, data := FoldResults(reply.value);
  }
}
