/** putMultiple (index.go:197-216): one put per map entry under the fixed
    column "cf:a", sent in one batched call whose error is wrapped. */
module BatchPut {
  import opened Wrappers
  import opened RowKeys
  import opened HBaseTypes

  /** Column family "cf" and qualifier "a" as bytes (index.go:204-205). */
  const Family: Bytes := [0x63, 0x66]
  const Qualifier: Bytes := [0x61]

  /** Prefix put in front of the backend's error text (index.go:211). */
  const PutMultiplePrefix: string := "error PutMultiple: "

  /** The remote PutMultiple call on a table: nil or an error text. */
  type PutBackend = (Bytes, seq<TPut>) -> Option<string>

  /** The put for one entry: its row, one cell "cf:a" holding its value. */
  function PutFor(row: Bytes, value: Bytes): TPut
  {
    TPut(row, [ColumnValue(Family, Qualifier, value)])
  }

  /** The table contents a sequence of puts leaves behind when applied in
      order to an empty table, reading each put's first cell. */
  function Applied(puts: seq<TPut>): map<Bytes, Bytes>
  {
    if |puts| == 0 then map[]
    else
      var p := puts[|puts| - 1];
      var before := Applied(puts[..|puts| - 1]);
      if |p.columnValues| == 0 then before else before[p.row := p.columnValues[0].value]
  }

  /** The entries of data whose rows are not in remaining. */
  function Visited(data: map<Bytes, Bytes>, remaining: set<Bytes>): map<Bytes, Bytes>
  {
    map row | row in data && row !in remaining :: data[row]
  }

  lemma AppliedStep(puts: seq<TPut>, data: map<Bytes, Bytes>, remaining: set<Bytes>, row: Bytes)
    requires row in remaining && remaining <= data.Keys
    requires Applied(puts) == Visited(data, remaining)
    ensures Applied(puts + [PutFor(row, data[row])]) == Visited(data, remaining - {row})
  {
    var put := PutFor(row, data[row]);
    assert (puts + [put])[..|puts|] == puts;
    assert Applied(puts + [put]) == Visited(data, remaining)[row := data[row]];
  }

  /** The puts built once the rows of data outside remaining have been
      visited: one put per visited entry, no row twice, and applying them
      gives back the visited part of data. */
  ghost predicate BuiltSoFar(data: map<Bytes, Bytes>, remaining: set<Bytes>, puts: seq<TPut>)
  {
    && remaining <= data.Keys
    && |puts| + |remaining| == |data|
    && (forall i :: 0 <= i < |puts| ==>
          puts[i].row in data && puts[i].row !in remaining && puts[i] == PutFor(puts[i].row, data[puts[i].row]))
    && (forall i, j :: 0 <= i < j < |puts| ==> puts[i].row != puts[j].row)
    && (forall row :: row in data && row !in remaining ==> PutFor(row, data[row]) in puts)
    && Applied(puts) == Visited(data, remaining)
  }

  /** Visiting one more entry keeps BuiltSoFar. */
  lemma BuildStep(data: map<Bytes, Bytes>, remaining: set<Bytes>, puts: seq<TPut>, row: Bytes)
    requires BuiltSoFar(data, remaining, puts)
    requires row in remaining
    ensures BuiltSoFar(data, remaining - {row}, puts + [PutFor(row, data[row])])
  {
    var put := PutFor(row, data[row]);
    var puts' := puts + [put];
    AppliedStep(puts, data, remaining, row);
    forall i | 0 <= i < |puts'|
      ensures puts'[i].row in data && puts'[i].row !in remaining - {row}
      ensures puts'[i] == PutFor(puts'[i].row, data[puts'[i].row])
    {
      if i < |puts| {
        assert puts'[i] == puts[i];
      }
    }
    forall i, j | 0 <= i < j < |puts'|
      ensures puts'[i].row != puts'[j].row
    {
      assert puts'[i] == puts[i];
      if j < |puts| {
        assert puts'[j] == puts[j];
      }
    }
    forall r | r in data && r !in remaining - {row}
      ensures PutFor(r, data[r]) in puts'
    {
      if r != row {
        var i :| 0 <= i < |puts| && puts[i] == PutFor(r, data[r]);
        assert puts'[i] == puts[i];
      } else {
        assert puts'[|puts|] == put;
      }
    }
  }

  /** The request list of index.go:199-207. Go visits the map in an
      unspecified order, modelled by picking any entry not yet visited; the
      result holds exactly one put per entry, rows never repeat, and
      applying the puts gives back the map. */
  method BuildPuts(data: map<Bytes, Bytes>) returns (puts: seq<TPut>)
    ensures |puts| == |data|
    ensures forall i :: 0 <= i < |puts| ==> puts[i].row in data && puts[i] == PutFor(puts[i].row, data[puts[i].row])
    ensures forall i, j :: 0 <= i < j < |puts| ==> puts[i].row != puts[j].row
    ensures forall row :: row in data ==> PutFor(row, data[row]) in puts
    ensures Applied(puts) == data
  {
    puts := [];
    var remaining := data.Keys;
    assert Visited(data, remaining) == map[];
    while remaining != {}
      invariant BuiltSoFar(data, remaining, puts)
      decreases remaining
    {
      var row :| row in remaining;
      BuildStep(data, remaining, puts, row);
      puts := puts + [PutFor(row, data[row])];
      remaining := remaining - {row};
    }
    assert Visited(data, remaining) == data;
  }

  /** putMultiple (index.go:197-216): sends the built puts in one call; a
      backend error comes back with "error PutMultiple: " in front of its
      text, success as nil. */
  method PutMultiple(table: Bytes, data: map<Bytes, Bytes>, backend: PutBackend) returns (puts: seq<TPut>, err: Option<string>)
    ensures |puts| == |data|
    ensures forall i, j :: 0 <= i < j < |puts| ==> puts[i].row != puts[j].row
    ensures forall i :: 0 <= i < |puts| ==> puts[i].row in data && puts[i] == PutFor(puts[i].row, data[puts[i].row])
    ensures Applied(puts) == data
    ensures backend(table, puts) == None ==> err == None
    ensures backend(table, puts).Some? ==> err == Some(PutMultiplePrefix + backend(table, puts).value)
  {
    puts := BuildPuts(data);
    var reply := backend(table, puts);
    if reply.Some? {
      return puts, Some(PutMultiplePrefix + reply.value);
    }
    return puts, None;
  }
}
