/**
 * Ordering rows by timestamp: Python's string order (code point by code point,
 * a proper prefix first) and the stable `list.sort(key=lambda x: x.get("ts") or "")`
 * that `fetch_observations` applies to the gathered rows.
 */
module Ordering {
  import opened Observations

  /** Python's `a < b` on strings. */
  predicate Less(a: string, b: string)
    ensures Less(a, b) ==> b != []
    ensures a == [] && b != [] ==> Less(a, b)
    decreases |a|
  {
    |b| > 0 && (|a| == 0 || a[0] < b[0] || (a[0] == b[0] && Less(a[1..], b[1..])))
  }

  lemma {:induction false} LessIrreflexive(a: string)
    ensures !Less(a, a)
    decreases |a|
  {
    if |a| > 0 {
      LessIrreflexive(a[1..]);
    }
  }

  lemma {:induction false} LessTransitive(a: string, b: string, c: string)
    requires Less(a, b) && Less(b, c)
    ensures Less(a, c)
    decreases |a|
  {
    if |a| > 0 && a[0] == b[0] && b[0] == c[0] {
      LessTransitive(a[1..], b[1..], c[1..]);
    }
  }

  lemma {:induction false} LessTrichotomy(a: string, b: string)
    ensures a == b || Less(a, b) || Less(b, a)
    decreases |a|
  {
    if |a| > 0 && |b| > 0 && a[0] == b[0] {
      LessTrichotomy(a[1..], b[1..]);
      if a[1..] == b[1..] {
        assert a == [a[0]] + a[1..] && b == [b[0]] + b[1..];
      }
    }
  }

  /** `not (b < a)` and `not (c < b)` give `not (c < a)`: the order is total. */
  lemma NotLessTransitive(a: string, b: string, c: string)
    requires !Less(b, a) && !Less(c, b)
    ensures !Less(c, a)
  {
    LessTrichotomy(a, b);
    LessTrichotomy(b, c);
    if Less(c, a) {
      if Less(a, b) {
        LessTransitive(c, a, b);
        if Less(b, c) { LessTransitive(b, c, b); LessIrreflexive(b); }
      }
      if Less(b, c) { LessTransitive(b, c, a); }
    }
  }

  /** The sort key `x.get("ts") or ""`: an absent or empty timestamp sorts as "". */
  function SortKey(r: Row): (key: string)
    ensures r.ts.None? ==> key == ""
    ensures r.ts.Some? ==> key == r.ts.value
  {
    if r.ts.Some? then r.ts.value else ""
  }

  /** Non-decreasing by sort key. */
  ghost predicate SortedByTs(rows: seq<Row>)
  {
    forall i, j :: 0 <= i < j < |rows| ==> !Less(SortKey(rows[j]), SortKey(rows[i]))
  }

  /** The rows whose sort key is `k`, in their order. */
  function WithKey(rows: seq<Row>, k: string): (sub: seq<Row>)
    ensures |sub| <= |rows|
  {
    if rows == [] then []
    else (if SortKey(rows[0]) == k then [rows[0]] else []) + WithKey(rows[1..], k)
  }

  lemma WithKeyCons(x: Row, rows: seq<Row>, k: string)
    ensures WithKey([x] + rows, k) == (if SortKey(x) == k then [x] else []) + WithKey(rows, k)
  {
    assert ([x] + rows)[1..] == rows;
  }

  lemma {:induction false} WithKeyConcat(a: seq<Row>, b: seq<Row>, k: string)
    ensures WithKey(a + b, k) == WithKey(a, k) + WithKey(b, k)
  {
    if a != [] {
      var head := if SortKey(a[0]) == k then [a[0]] else [];
      calc {
        WithKey(a + b, k);
        { assert a + b == [a[0]] + (a[1..] + b); }
        WithKey([a[0]] + (a[1..] + b), k);
        { WithKeyCons(a[0], a[1..] + b, k); }
        head + WithKey(a[1..] + b, k);
        { WithKeyConcat(a[1..], b, k); }
        head + (WithKey(a[1..], k) + WithKey(b, k));
        (head + WithKey(a[1..], k)) + WithKey(b, k);
      }
    } else {
      assert a + b == b;
    }
  }

  /** A key smaller than the head of a sorted sequence occurs nowhere in it. */
  lemma {:induction false} WithSmallerKey(rows: seq<Row>, k: string)
    requires SortedByTs(rows) && rows != [] && Less(k, SortKey(rows[0]))
    ensures WithKey(rows, k) == []
  {
    LessIrreflexive(k);
    if |rows| > 1 {
      LessTrichotomy(SortKey(rows[0]), SortKey(rows[1]));
      if SortKey(rows[0]) != SortKey(rows[1]) {
        LessTransitive(k, SortKey(rows[0]), SortKey(rows[1]));
      }
      WithSmallerKey(rows[1..], k);
    }
  }

  /** Places `x` before the first row with a strictly greater key, so after every equal key. */
  function Insert(x: Row, rows: seq<Row>): (r: seq<Row>)
    ensures multiset(r) == multiset(rows) + multiset{x}
  {
    if rows == [] || Less(SortKey(x), SortKey(rows[0])) then [x] + rows
    else
      assert rows == [rows[0]] + rows[1..];
      [rows[0]] + Insert(x, rows[1..])
  }

  /** A row no greater than any row of a sorted sequence can go in front of it. */
  lemma SortedCons(x: Row, rows: seq<Row>)
    requires SortedByTs(rows)
    requires forall j :: 0 <= j < |rows| ==> !Less(SortKey(rows[j]), SortKey(x))
    ensures SortedByTs([x] + rows)
  {
    var r := [x] + rows;
    forall i, j | 0 <= i < j < |r|
      ensures !Less(SortKey(r[j]), SortKey(r[i]))
    {
      assert r[j] == rows[j - 1];
      if i > 0 {
        assert r[i] == rows[i - 1];
      }
    }
  }

  /** Inserting into a sorted sequence keeps it sorted. */
  lemma {:induction false} InsertSorted(x: Row, rows: seq<Row>)
    requires SortedByTs(rows)
    ensures SortedByTs(Insert(x, rows))
  {
    if rows == [] {
    } else if Less(SortKey(x), SortKey(rows[0])) {
      forall j | 0 <= j < |rows|
        ensures !Less(SortKey(rows[j]), SortKey(x))
      {
        if Less(SortKey(rows[j]), SortKey(x)) {
          LessTransitive(SortKey(rows[j]), SortKey(x), SortKey(rows[0]));
          if j == 0 { LessIrreflexive(SortKey(rows[0])); }
        }
      }
      SortedCons(x, rows);
    } else {
      var tail := Insert(x, rows[1..]);
      SortedTail(rows);
      InsertSorted(x, rows[1..]);
      forall j | 0 <= j < |tail|
        ensures !Less(SortKey(tail[j]), SortKey(rows[0]))
      {
        var y := tail[j];
        assert y in multiset(tail);
        if y != x {
          assert y in multiset(rows[1..]);
          var i :| 0 <= i < |rows[1..]| && rows[1..][i] == y;
          assert rows[i + 1] == y;
        }
      }
      SortedCons(rows[0], tail);
    }
  }

  /** The tail of a sorted sequence is sorted. */
  lemma SortedTail(rows: seq<Row>)
    requires SortedByTs(rows) && rows != []
    ensures SortedByTs(rows[1..])
  {
    forall i, j | 0 <= i < j < |rows| - 1
      ensures !Less(SortKey(rows[1..][j]), SortKey(rows[1..][i]))
    {
      assert rows[1..][j] == rows[j + 1] && rows[1..][i] == rows[i + 1];
    }
  }

  /** Inserting into a sorted sequence appends `x` to the rows of its own key, and changes no other key. */
  lemma {:induction false} InsertWithKey(x: Row, rows: seq<Row>, k: string)
    requires SortedByTs(rows)
    ensures WithKey(Insert(x, rows), k) == WithKey(rows, k) + (if SortKey(x) == k then [x] else [])
  {
    var own: seq<Row> := if SortKey(x) == k then [x] else [];
    if rows == [] {
      assert Insert(x, rows) == [x] + [];
      WithKeyCons(x, [], k);
    } else if Less(SortKey(x), SortKey(rows[0])) {
      assert Insert(x, rows) == [x] + rows;
      WithKeyCons(x, rows, k);
      if SortKey(x) == k {
        WithSmallerKey(rows, k);
      }
    } else {
      SortedTail(rows);
      InsertWithKey(x, rows[1..], k);
      InsertWithKeyStep(x, rows, k);
    }
  }
  /** Inserting behind the head: the head's key class gains nothing new. */
  lemma InsertWithKeyStep(x: Row, rows: seq<Row>, k: string)
    requires rows != [] && !Less(SortKey(x), SortKey(rows[0]))
    requires WithKey(Insert(x, rows[1..]), k) == WithKey(rows[1..], k) + (if SortKey(x) == k then [x] else [])
    ensures WithKey(Insert(x, rows), k) == WithKey(rows, k) + (if SortKey(x) == k then [x] else [])
  {
    var head: seq<Row> := if SortKey(rows[0]) == k then [rows[0]] else [];
    var own: seq<Row> := if SortKey(x) == k then [x] else [];
    var tail := Insert(x, rows[1..]);
    var rest := WithKey(rows[1..], k);
    assert Insert(x, rows) == [rows[0]] + tail;
    WithKeyCons(rows[0], tail, k);
    assert WithKey(Insert(x, rows), k) == head + (rest + own);
    assert WithKey(rows, k) == head + rest;
    ConcatAssoc(head, rest, own);
  }

  lemma ConcatAssoc(a: seq<Row>, b: seq<Row>, c: seq<Row>)
    ensures a + (b + c) == (a + b) + c
  {
  }

  /**
   * The rows sorted by key, stably: what Python's `list.sort` with that key returns
   * (an insertion sort serves as the reference; the lemmas below pin it down).
   */
  function SortByTs(rows: seq<Row>): (sorted: seq<Row>)
    ensures SortedByTs(sorted)
    ensures multiset(sorted) == multiset(rows)
  {
    if rows == [] then []
    else
      var init := rows[..|rows| - 1];
      assert rows == init + [rows[|rows| - 1]];
      var s := SortByTs(init);
      InsertSorted(rows[|rows| - 1], s);
      Insert(rows[|rows| - 1], s)
  }

  /** Stability: rows with equal keys keep their original relative order. */
  lemma {:induction false} SortByTsStable(rows: seq<Row>, k: string)
    ensures WithKey(SortByTs(rows), k) == WithKey(rows, k)
  {
    if rows != [] {
      var init, x := rows[..|rows| - 1], rows[|rows| - 1];
      var s := SortByTs(init);
      assert rows == init + [x];
      assert SortByTs(rows) == Insert(x, s);
      SortByTsStable(init, k);
      InsertWithKey(x, s, k);
      WithKeyConcat(init, [x], k);
      WithKeyCons(x, [], k);
      assert [x] + [] == [x];
    }
  }

  /** The first row of a sorted sequence carries the least key. */
  lemma HeadKeyLeast(rows: seq<Row>, y: Row)
    requires SortedByTs(rows) && rows != [] && y in rows
    ensures !Less(SortKey(y), SortKey(rows[0]))
  {
    var j :| 0 <= j < |rows| && rows[j] == y;
    if j == 0 { LessIrreflexive(SortKey(y)); }
  }

  lemma HeadKeyPresent(rows: seq<Row>)
    requires rows != []
    ensures WithKey(rows, SortKey(rows[0])) != []
  {
  }

  lemma {:induction false} WithKeyMember(rows: seq<Row>, k: string, y: Row)
    requires y in WithKey(rows, k)
    ensures y in rows && SortKey(y) == k
  {
    if rows != [] {
      if y != rows[0] || SortKey(rows[0]) != k {
        WithKeyMember(rows[1..], k, y);
      }
    }
  }

  /**
   * A sorted sequence is determined by its per-key subsequences: two sorted
   * sequences that agree on every key are equal. So `SortByTs` is the one stable
   * sort of its input.
   */
  lemma {:induction false} SortedUnique(a: seq<Row>, b: seq<Row>)
    requires SortedByTs(a) && SortedByTs(b)
    requires forall k :: WithKey(a, k) == WithKey(b, k)
    ensures a == b
    decreases |a|
  {
    if a == [] || b == [] {
      if a != [] { HeadKeyPresent(a); }
      if b != [] { HeadKeyPresent(b); }
    } else {
      SameHead(a, b);
      SameTailKeys(a, b);
      SortedTail(a);
      SortedTail(b);
      SortedUnique(a[1..], b[1..]);
      assert a == [a[0]] + a[1..] && b == [b[0]] + b[1..];
    }
  }

  /** Two sorted lists with the same rows per key start with the same row. */
  lemma SameHead(a: seq<Row>, b: seq<Row>)
    requires a != [] && b != []
    requires SortedByTs(a) && SortedByTs(b)
    requires forall k :: WithKey(a, k) == WithKey(b, k)
    ensures a[0] == b[0]
  {
    var ka, kb := SortKey(a[0]), SortKey(b[0]);
    // a[0]'s key occurs in b, so it is not below b's least key, and symmetrically
    assert WithKey(a, ka)[0] == a[0];
    WithKeyMember(b, ka, a[0]);
    HeadKeyLeast(b, a[0]);
    assert WithKey(b, kb)[0] == b[0];
    WithKeyMember(a, kb, b[0]);
    HeadKeyLeast(a, b[0]);
    LessTrichotomy(ka, kb);
    assert ka == kb;
  }

  /** Dropping a common first row keeps the rows per key equal. */
  lemma SameTailKeys(a: seq<Row>, b: seq<Row>)
    requires a != [] && b != [] && a[0] == b[0]
    requires forall k :: WithKey(a, k) == WithKey(b, k)
    ensures forall k :: WithKey(a[1..], k) == WithKey(b[1..], k)
  {
    forall k
      ensures WithKey(a[1..], k) == WithKey(b[1..], k)
    {
      var head := if SortKey(a[0]) == k then [a[0]] else [];
      assert WithKey(a, k) == head + WithKey(a[1..], k);
      assert WithKey(b, k) == head + WithKey(b[1..], k);
      assert WithKey(a[1..], k) == (head + WithKey(a[1..], k))[|head|..];
      assert WithKey(b[1..], k) == (head + WithKey(b[1..], k))[|head|..];
    }
  }

  /** `SortByTs` is the stable sort: any sorted rearrangement keeping each key's order equals it. */
  lemma SortByTsIsTheStableSort(rows: seq<Row>, sorted: seq<Row>)
    requires SortedByTs(sorted)
    requires forall k :: WithKey(sorted, k) == WithKey(rows, k)
    ensures sorted == SortByTs(rows)
  {
    forall k
      ensures WithKey(sorted, k) == WithKey(SortByTs(rows), k)
    {
      SortByTsStable(rows, k);
    }
    SortedUnique(sorted, SortByTs(rows));
  }
}
