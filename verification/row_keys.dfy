/** Row keys as byte strings, their byte-lexicographic order, and the
    closest-row-after successor used to resume a range scan (index.go). */
module RowKeys {

  type Byte = bv8

  /** A Go `[]byte` or `string`: both are plain byte strings. */
  type Bytes = seq<Byte>

  /** Byte-lexicographic order on row keys: bytes compare unsigned, and a
      proper prefix sorts before any of its extensions. */
  predicate Less(a: Bytes, b: Bytes)
  {
    if |a| == 0 then |b| > 0
    else if |b| == 0 then false
    else a[0] < b[0] || (a[0] == b[0] && Less(a[1..], b[1..]))
  }

  predicate LessEq(a: Bytes, b: Bytes)
  {
    a == b || Less(a, b)
  }

  lemma {:induction false} LessIrreflexive(a: Bytes)
    ensures !Less(a, a)
  {
    if |a| > 0 {
      LessIrreflexive(a[1..]);
    }
  }

  lemma {:induction false} LessTransitive(a: Bytes, b: Bytes, c: Bytes)
    requires Less(a, b) && Less(b, c)
    ensures Less(a, c)
  {
    if |a| > 0 && a[0] == b[0] && b[0] == c[0] {
      LessTransitive(a[1..], b[1..], c[1..]);
    }
  }

  /** Any two distinct keys are ordered one way or the other, and never both. */
  lemma {:induction false} LessTrichotomy(a: Bytes, b: Bytes)
    ensures a == b || Less(a, b) || Less(b, a)
    ensures !(Less(a, b) && Less(b, a))
  {
    if |a| > 0 && |b| > 0 && a[0] == b[0] {
      LessTrichotomy(a[1..], b[1..]);
      if a[1..] == b[1..] {
        assert a == [a[0]] + a[1..] && b == [b[0]] + b[1..];
      }
    }
  }

  lemma LessEqTransitive(a: Bytes, b: Bytes, c: Bytes)
    requires LessEq(a, b) && LessEq(b, c)
    ensures LessEq(a, c)
  {
    if a != b && b != c {
      LessTransitive(a, b, c);
    }
  }

  /** The key the scan resumes from: the row followed by one 0x00 byte. */
  function ClosestRowAfter(row: Bytes): Bytes
  {
    row + [0x00]
  }

  /** `row + [0x00]` is the immediate successor of `row`: a key is strictly
      greater than `row` exactly when it is at least the successor. */
  lemma {:induction false} SuccessorBound(row: Bytes, k: Bytes)
    ensures Less(row, k) <==> LessEq(ClosestRowAfter(row), k)
  {
    var next := ClosestRowAfter(row);
    if |row| == 0 {
      assert next == [0x00];
      if |k| > 0 && k != next {
        assert |k| == 1 && k[0] == 0x00 ==> k == next;
        assert Less(next, k) by {
          if k[0] == 0x00 {
            assert next[1..] == [];
          }
        }
      }
    } else {
      assert next[0] == row[0];
      assert next[1..] == ClosestRowAfter(row[1..]);
      if |k| > 0 {
        SuccessorBound(row[1..], k[1..]);
        if k[0] == row[0] && k[1..] == next[1..] {
          assert k == [k[0]] + k[1..];
          assert next == [next[0]] + next[1..];
        }
        if k == next {
          assert k[1..] == next[1..];
        }
      }
    }
  }

  /** index.go:101-102: the successor is greater than the row, and no key lies
      strictly between the two, so a scan resumed from it skips nothing. */
  lemma ClosestRowAfterIsImmediateSuccessor(row: Bytes)
    ensures Less(row, ClosestRowAfter(row))
    ensures forall k :: Less(row, k) <==> LessEq(ClosestRowAfter(row), k)
    ensures forall k :: !(Less(row, k) && Less(k, ClosestRowAfter(row)))
  {
    forall k
      ensures Less(row, k) <==> LessEq(ClosestRowAfter(row), k)
    {
      SuccessorBound(row, k);
    }
    forall k
      ensures !(Less(row, k) && Less(k, ClosestRowAfter(row)))
    {
      SuccessorBound(row, k);
      LessTrichotomy(k, ClosestRowAfter(row));
    }
    SuccessorBound(row, ClosestRowAfter(row));
  }

  /** createClosestRowAfter (index.go:103-111): copies the row byte by byte into
      a fresh slice and appends 0x00. */
  method CreateClosestRowAfter(row: Bytes) returns (nextRow: Bytes)
    ensures |nextRow| == |row| + 1
    ensures nextRow[..|row|] == row && nextRow[|row|] == 0x00
    ensures nextRow == ClosestRowAfter(row)
    ensures Less(row, nextRow)
  {
    nextRow := [];
    var i := 0;
    while i < |row|
      invariant 0 <= i <= |row|
      invariant nextRow == row[..i]
    {
      nextRow := nextRow + [row[i]];
      i := i + 1;
    }
    nextRow := nextRow + [0x00];
    ClosestRowAfterIsImmediateSuccessor(row);
  }
}
