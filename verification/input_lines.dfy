/** The input-file loop of main (index.go:40-51): each `key,value` line is
    split on commas; its first field is appended to the row list and mapped
    to its second field. */
module InputLines {
  import opened RowKeys

  const Comma: Byte := 0x2C

  /** The fields joined back together with one separator between each two. */
  function Join(fields: seq<Bytes>, sep: Byte): Bytes
  {
    if |fields| == 0 then []
    else if |fields| == 1 then fields[0]
    else fields[0] + [sep] + Join(fields[1..], sep)
  }

  /** strings.Split with a one-byte separator: the pieces between
      separators, one more piece than there are separators. */
  function Split(s: Bytes, sep: Byte): seq<Bytes>
  {
    if |s| == 0 then [[]]
    else
      var rest := Split(s[1..], sep);
      if s[0] == sep then [[]] + rest
      else [[s[0]] + rest[0]] + rest[1..]
  }

  /** Split yields at least one field, none containing the separator, and
      at least two exactly when the separator occurs. */
  lemma {:induction false} SplitShape(s: Bytes, sep: Byte)
    ensures |Split(s, sep)| >= 1
    ensures forall i :: 0 <= i < |Split(s, sep)| ==> sep !in Split(s, sep)[i]
    ensures |Split(s, sep)| >= 2 <==> sep in s
  {
    if |s| > 0 {
      SplitShape(s[1..], sep);
      var rest := Split(s[1..], sep);
      var fields := Split(s, sep);
      assert s == [s[0]] + s[1..];
      if s[0] != sep {
        forall i | 0 <= i < |fields|
          ensures sep !in fields[i]
        {
          if i > 0 {
            assert fields[i] == rest[i];
          }
        }
      }
    }
  }

  /** Joining the fields of a split reassembles the line. */
  lemma {:induction false} SplitJoin(s: Bytes, sep: Byte)
    ensures Join(Split(s, sep), sep) == s
  {
    if |s| > 0 {
      SplitJoin(s[1..], sep);
      SplitShape(s[1..], sep);
      var rest := Split(s[1..], sep);
      var fields := Split(s, sep);
      assert s == [s[0]] + s[1..];
      if s[0] == sep {
        assert fields[1..] == rest;
      } else {
        assert fields[1..] == rest[1..];
        if |rest| > 1 {
          assert rest == [rest[0]] + rest[1..];
          assert Join(rest, sep) == rest[0] + [sep] + Join(rest[1..], sep);
        }
      }
    }
  }

  /** Splitting a join of separator-free fields gives the fields back. */
  lemma {:induction false} JoinThenSplit(fields: seq<Bytes>, sep: Byte)
    requires |fields| >= 1
    requires forall i :: 0 <= i < |fields| ==> sep !in fields[i]
    ensures Split(Join(fields, sep), sep) == fields
    decreases |fields|, |fields[0]|
  {
    var f := fields[0];
    if |f| == 0 {
      if |fields| > 1 {
        JoinThenSplit(fields[1..], sep);
        assert Join(fields, sep) == [sep] + Join(fields[1..], sep);
        assert ([sep] + Join(fields[1..], sep))[1..] == Join(fields[1..], sep);
        assert fields == [[]] + fields[1..];
      }
    } else {
      var shorter := [f[1..]] + fields[1..];
      forall i | 0 <= i < |shorter|
        ensures sep !in shorter[i]
      {
        if i == 0 {
          assert forall b :: b in f[1..] ==> b in f;
        } else {
          assert shorter[i] == fields[i];
        }
      }
      JoinThenSplit(shorter, sep);
      assert shorter[1..] == fields[1..];
      assert Join(fields, sep) == [f[0]] + Join(shorter, sep);
      assert ([f[0]] + Join(shorter, sep))[1..] == Join(shorter, sep);
      assert f == [f[0]] + f[1..];
      assert fields == [f] + fields[1..];
    }
  }

  /** A line `key,value` whose key and value hold no comma splits into
      exactly those two fields. */
  lemma KeyValueLine(key: Bytes, value: Bytes)
    requires Comma !in key && Comma !in value
    ensures Split(key + [Comma] + value, Comma) == [key, value]
  {
    assert Join([key, value], Comma) == key + [Comma] + value;
    JoinThenSplit([key, value], Comma);
  }

  /** The row a line contributes: its first comma-separated field. */
  function RowOf(line: Bytes): Bytes
  {
    Split(line, Comma)[0]
  }

  /** The value a line contributes: its second comma-separated field. */
  function ValueOf(line: Bytes): Bytes
    requires Comma in line
  {
    SplitShape(line, Comma);
    Split(line, Comma)[1]
  }

  /** No later entry of rows repeats entry i. */
  ghost predicate LastWithRow(rows: seq<Bytes>, i: int)
    requires 0 <= i < |rows|
  {
    forall j :: i < j < |rows| ==> rows[j] != rows[i]
  }

  /** Every line holds a comma, so each has a second field to read. */
  ghost predicate AllHaveComma(lines: seq<Bytes>)
  {
    forall i :: 0 <= i < |lines| ==> Comma in lines[i]
  }

  /** One row per line so far, the line's first field, in line order. */
  ghost predicate RowsOfLines(lines: seq<Bytes>, n: nat, rows: seq<Bytes>)
    requires n <= |lines|
  {
    |rows| == n && forall i :: 0 <= i < n ==> rows[i] == RowOf(lines[i])
  }

  /** The map's keys are exactly the rows seen. */
  ghost predicate KeysAreRows(standardDate: map<Bytes, Bytes>, rows: seq<Bytes>)
  {
    standardDate.Keys == (set i | 0 <= i < |rows| :: rows[i])
  }

  /** Each row maps to the value of the last line carrying it. */
  ghost predicate ValuesOfLastLines(lines: seq<Bytes>, standardDate: map<Bytes, Bytes>, rows: seq<Bytes>)
    requires |rows| <= |lines| && AllHaveComma(lines)
  {
    forall i :: 0 <= i < |rows| && LastWithRow(rows, i) ==>
      rows[i] in standardDate && standardDate[rows[i]] == ValueOf(lines[i])
  }

  /** The reported indices are exactly the lines so far that are not
      exactly two fields. */
  ghost predicate ReportedMalformed(lines: seq<Bytes>, n: nat, reported: seq<nat>)
    requires n <= |lines|
  {
    forall k: nat :: k in reported <==> k < n && |Split(lines[k], Comma)| != 2
  }

  /** What the loop has built after the first n lines: one row per line in
      order, a map from each row to the value of the last line carrying it,
      and the indices of the lines that are not exactly `key,value`. */
  ghost predicate LoadedUpTo(lines: seq<Bytes>, n: nat,
                             standardDate: map<Bytes, Bytes>, rows: seq<Bytes>, reported: seq<nat>)
    requires n <= |lines| && AllHaveComma(lines)
  {
    && RowsOfLines(lines, n, rows)
    && KeysAreRows(standardDate, rows)
    && ValuesOfLastLines(lines, standardDate, rows)
    && ReportedMalformed(lines, n, reported)
  }

  lemma RowsStep(lines: seq<Bytes>, n: nat, rows: seq<Bytes>)
    requires n < |lines| && RowsOfLines(lines, n, rows)
    ensures RowsOfLines(lines, n + 1, rows + [RowOf(lines[n])])
  {
  }

  /** Storing one more row keeps the map's keys equal to the rows seen. */
  lemma KeysStep(standardDate: map<Bytes, Bytes>, rows: seq<Bytes>, row: Bytes, value: Bytes)
    requires KeysAreRows(standardDate, rows)
    ensures KeysAreRows(standardDate[row := value], rows + [row])
  {
    var rows' := rows + [row];
    var m := standardDate[row := value];
    forall k
      ensures k in m.Keys <==> k in (set i | 0 <= i < |rows'| :: rows'[i])
    {
      if k == row {
        assert rows'[|rows|] == k;
      }
      if k in standardDate.Keys {
        var i :| 0 <= i < |rows| && rows[i] == k;
        assert rows'[i] == k;
      }
      if k in (set i | 0 <= i < |rows'| :: rows'[i]) {
        var i :| 0 <= i < |rows'| && rows'[i] == k;
        if i < |rows| {
          assert k in (set i | 0 <= i < |rows| :: rows[i]);
        }
      }
    }
  }

  /** Storing the value of line n keeps every row mapped to the value of the
      last line carrying it. */
  lemma ValuesStep(lines: seq<Bytes>, n: nat, standardDate: map<Bytes, Bytes>, rows: seq<Bytes>)
    requires n < |lines| && |rows| == n && AllHaveComma(lines)
    requires ValuesOfLastLines(lines, standardDate, rows)
    ensures ValuesOfLastLines(lines, standardDate[RowOf(lines[n]) := ValueOf(lines[n])], rows + [RowOf(lines[n])])
  {
    var rows' := rows + [RowOf(lines[n])];
    var m := standardDate[RowOf(lines[n]) := ValueOf(lines[n])];
    forall i | 0 <= i < n + 1 && LastWithRow(rows', i)
      ensures rows'[i] in m && m[rows'[i]] == ValueOf(lines[i])
    {
      if i < n {
        assert rows'[i] == rows[i] && rows'[n] != rows[i];
        assert LastWithRow(rows, i) by {
          forall j | i < j < n
            ensures rows[j] != rows[i]
          {
            assert rows'[j] == rows[j];
          }
        }
      }
    }
  }

  /** Reporting line n when it is not exactly two fields keeps the report
      list equal to the malformed lines seen. */
  lemma ReportedStep(lines: seq<Bytes>, n: nat, reported: seq<nat>, reported': seq<nat>)
    requires n < |lines| && ReportedMalformed(lines, n, reported)
    requires reported' == if |Split(lines[n], Comma)| != 2 then reported + [n] else reported
    ensures ReportedMalformed(lines, n + 1, reported')
  {
  }

  lemma LoadStep(lines: seq<Bytes>, n: nat,
                 standardDate: map<Bytes, Bytes>, rows: seq<Bytes>, reported: seq<nat>, reported': seq<nat>)
    requires n < |lines| && AllHaveComma(lines)
    requires LoadedUpTo(lines, n, standardDate, rows, reported)
    requires reported' == if |Split(lines[n], Comma)| != 2 then reported + [n] else reported
    ensures LoadedUpTo(lines, n + 1, standardDate[RowOf(lines[n]) := ValueOf(lines[n])],
                       rows + [RowOf(lines[n])], reported')
  {
    RowsStep(lines, n, rows);
    KeysStep(standardDate, rows, RowOf(lines[n]), ValueOf(lines[n]));
    ValuesStep(lines, n, standardDate, rows);
    ReportedStep(lines, n, reported, reported');
  }

  /** The loop of index.go:43-51. Every line must contain a comma: the code
      reports a line that does not split into exactly two fields but still
      reads its second field, which does not exist without a comma. Returns
      the map, the row list, and the indices of the lines it reported. */
  method LoadLines(lines: seq<Bytes>)
    returns (standardDate: map<Bytes, Bytes>, rows: seq<Bytes>, reported: seq<nat>)
    requires forall i :: 0 <= i < |lines| ==> Comma in lines[i]
    ensures LoadedUpTo(lines, |lines|, standardDate, rows, reported)
  {
    standardDate := map[];
    rows := [];
    reported := [];
    var i := 0;
    while i < |lines|
      invariant 0 <= i <= |lines|
      invariant LoadedUpTo(lines, i, standardDate, rows, reported)
    {
      var res := Split(lines[i], Comma);
      SplitShape(lines[i], Comma);
      var reported' := reported;
      if |res| != 2 {
        reported' := reported + [i];
      }
      LoadStep(lines, i, standardDate, rows, reported, reported');
      standardDate := standardDate[res[0] := res[1]];
      rows := rows + [res[0]];
      reported := reported';
      i := i + 1;
    }
  }
}
