/** The storage backend as the scan sees it: a table's row keys in strictly
    ascending byte order, the half-open range [start, stop) over them, and
    the page a paged scan call returns. */
module KeyRange {
  import opened RowKeys

  ghost predicate StrictlySorted(keys: seq<Bytes>)
  {
    forall i, j :: 0 <= i < j < |keys| ==> Less(keys[i], keys[j])
  }

  predicate InRange(k: Bytes, start: Bytes, stop: Bytes)
  {
    LessEq(start, k) && Less(k, stop)
  }

  /** The keys of `keys` inside [start, stop), in their stored order. */
  function Range(keys: seq<Bytes>, start: Bytes, stop: Bytes): seq<Bytes>
  {
    if |keys| == 0 then []
    else (if InRange(keys[0], start, stop) then [keys[0]] else []) + Range(keys[1..], start, stop)
  }

  /** One scan page: the first `caching` keys of [start, stop). */
  function Page(keys: seq<Bytes>, start: Bytes, stop: Bytes, caching: nat): seq<Bytes>
  {
    var r := Range(keys, start, stop);
    if caching < |r| then r[..caching] else r
  }

  /** The range holds exactly the stored keys that lie in [start, stop). */
  lemma {:induction false} RangeMembers(keys: seq<Bytes>, start: Bytes, stop: Bytes, k: Bytes)
    ensures k in Range(keys, start, stop) <==> k in keys && InRange(k, start, stop)
  {
    if |keys| > 0 {
      RangeMembers(keys[1..], start, stop, k);
      assert keys == [keys[0]] + keys[1..];
    }
  }

  lemma {:induction false} RangeConcat(a: seq<Bytes>, b: seq<Bytes>, start: Bytes, stop: Bytes)
    ensures Range(a + b, start, stop) == Range(a, start, stop) + Range(b, start, stop)
  {
    if |a| > 0 {
      assert (a + b)[1..] == a[1..] + b;
      RangeConcat(a[1..], b, start, stop);
    } else {
      assert a + b == b;
    }
  }

  lemma {:induction false} RangeKeepsAll(keys: seq<Bytes>, start: Bytes, stop: Bytes)
    requires forall i :: 0 <= i < |keys| ==> InRange(keys[i], start, stop)
    ensures Range(keys, start, stop) == keys
  {
    if |keys| > 0 {
      RangeKeepsAll(keys[1..], start, stop);
      assert keys == [keys[0]] + keys[1..];
    }
  }

  lemma {:induction false} RangeDropsAll(keys: seq<Bytes>, start: Bytes, stop: Bytes)
    requires forall i :: 0 <= i < |keys| ==> !InRange(keys[i], start, stop)
    ensures Range(keys, start, stop) == []
  {
    if |keys| > 0 {
      RangeDropsAll(keys[1..], start, stop);
    }
  }

  /** Narrowing the lower bound of an existing range is the same as taking the
      narrower range of the whole table. */
  lemma {:induction false} RangeOfRange(keys: seq<Bytes>, start: Bytes, later: Bytes, stop: Bytes)
    requires LessEq(start, later)
    ensures Range(Range(keys, start, stop), later, stop) == Range(keys, later, stop)
  {
    if |keys| > 0 {
      RangeOfRange(keys[1..], start, later, stop);
      var k := keys[0];
      var rest := Range(keys[1..], start, stop);
      if InRange(k, start, stop) {
        assert Range(keys, start, stop) == [k] + rest;
        RangeConcat([k], rest, later, stop);
      } else {
        if LessEq(later, k) {
          LessEqTransitive(start, later, k);
        }
        assert !InRange(k, later, stop);
        assert Range(keys, start, stop) == rest;
      }
    }
  }

  lemma {:induction false} RangeSorted(keys: seq<Bytes>, start: Bytes, stop: Bytes)
    requires StrictlySorted(keys)
    ensures StrictlySorted(Range(keys, start, stop))
  {
    if |keys| > 0 {
      var rest := Range(keys[1..], start, stop);
      RangeSorted(keys[1..], start, stop);
      if InRange(keys[0], start, stop) {
        forall j | 0 <= j < |rest|
          ensures Less(keys[0], rest[j])
        {
          RangeMembers(keys[1..], start, stop, rest[j]);
          var i :| 0 <= i < |keys[1..]| && keys[1..][i] == rest[j];
          assert keys[i + 1] == rest[j];
        }
        var r := [keys[0]] + rest;
        forall i, j | 0 <= i < j < |r|
          ensures Less(r[i], r[j])
        {
          if i > 0 {
            assert r[i] == rest[i - 1] && r[j] == rest[j - 1];
          }
        }
      }
    }
  }

  /** No key of the range up to and including its m-th key lies at or
      above the closest row after that m-th key. */
  lemma PageBeforeResume(keys: seq<Bytes>, start: Bytes, stop: Bytes, m: nat)
    requires StrictlySorted(keys)
    requires 1 <= m <= |Range(keys, start, stop)|
    ensures var r := Range(keys, start, stop);
            Range(r[..m], ClosestRowAfter(r[m - 1]), stop) == []
  {
    var r := Range(keys, start, stop);
    var last := r[m - 1];
    var next := ClosestRowAfter(last);
    ClosestRowAfterIsImmediateSuccessor(last);
    RangeSorted(keys, start, stop);
    forall i | 0 <= i < m
      ensures !InRange(r[..m][i], next, stop)
    {
      if i < m - 1 {
        LessTrichotomy(r[i], last);
      } else {
        LessIrreflexive(last);
      }
    }
    RangeDropsAll(r[..m], next, stop);
  }

  /** Every key of the range after its m-th key lies in
      [closest row after the m-th key, stop). */
  lemma RestAfterResume(keys: seq<Bytes>, start: Bytes, stop: Bytes, m: nat)
    requires StrictlySorted(keys)
    requires 1 <= m <= |Range(keys, start, stop)|
    ensures var r := Range(keys, start, stop);
            Range(r[m..], ClosestRowAfter(r[m - 1]), stop) == r[m..]
  {
    var r := Range(keys, start, stop);
    var last := r[m - 1];
    var next := ClosestRowAfter(last);
    ClosestRowAfterIsImmediateSuccessor(last);
    RangeSorted(keys, start, stop);
    forall i | 0 <= i < |r[m..]|
      ensures InRange(r[m..][i], next, stop)
    {
      assert Less(last, r[m + i]);
      RangeMembers(keys, start, stop, r[m + i]);
    }
    RangeKeepsAll(r[m..], next, stop);
  }

  /** The continuation step of the scan: after a page ending at the m-th key
      of the current range, the range that starts at that key's closest row
      after is exactly the remainder of the current range. */
  lemma ResumeAfterPage(keys: seq<Bytes>, start: Bytes, stop: Bytes, m: nat)
    requires StrictlySorted(keys)
    requires 1 <= m <= |Range(keys, start, stop)|
    ensures Range(keys, ClosestRowAfter(Range(keys, start, stop)[m - 1]), stop)
         == Range(keys, start, stop)[m..]
  {
    var r := Range(keys, start, stop);
    var last := r[m - 1];
    var next := ClosestRowAfter(last);
    RangeMembers(keys, start, stop, last);
    ClosestRowAfterIsImmediateSuccessor(last);
    LessEqTransitive(start, last, next);
    RangeOfRange(keys, start, next, stop);
    assert r == r[..m] + r[m..];
    RangeConcat(r[..m], r[m..], next, stop);
    PageBeforeResume(keys, start, stop, m);
    RestAfterResume(keys, start, stop, m);
  }

  /** A page is empty exactly when nothing is left in [start, stop); otherwise
      it is a non-empty prefix of the remaining range of at most `caching` keys. */
  lemma PageShape(keys: seq<Bytes>, start: Bytes, stop: Bytes, caching: nat)
    requires caching > 0
    ensures Page(keys, start, stop, caching) == [] <==> Range(keys, start, stop) == []
    ensures |Page(keys, start, stop, caching)| <= caching
    ensures Page(keys, start, stop, caching) <= Range(keys, start, stop)
  {
  }
}
