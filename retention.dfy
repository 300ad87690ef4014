/**
 * The 48-hour retention rule of `prune_history`: which rows survive a prune,
 * stated on values so that the store's methods can be proved against it.
 */
module Retention {
  import opened Observations
  import opened Ordering

  /**
   * What `datetime.fromisoformat(ts.replace("Z", "+00:00"))` yields for a timestamp
   * string: a parse failure, a naive datetime (no UTC offset), or an aware instant
   * in microseconds since the epoch.
   */
  datatype Stamp = Unparseable | Naive | Aware(micros: int)

  const HoursToKeep: int := 48
  const MicrosPerHour: int := 3_600_000_000

  /** `datetime.now(timezone.utc) - timedelta(hours=HOURS_TO_KEEP)`, with `now` in microseconds. */
  function Cutoff(now: int): (cutoff: int)
    ensures now - cutoff == 48 * 3600 * 1_000_000
  {
    now - HoursToKeep * MicrosPerHour
  }

  /** A row survives a prune: its timestamp parses to an aware instant at or after the cutoff. */
  predicate Keeps(parse: string -> Stamp, cutoff: int, row: Row)
    ensures Keeps(parse, cutoff, row) ==> row.ts.Some? && !IsNaive(parse, row)
  {
    row.ts.Some? && parse(row.ts.value).Aware? && parse(row.ts.value).micros >= cutoff
  }

  /** A row whose timestamp parses to a naive datetime, which cannot be compared with the cutoff. */
  predicate IsNaive(parse: string -> Stamp, row: Row)
    ensures IsNaive(parse, row) ==> row.ts.Some?
  {
    row.ts.Some? && parse(row.ts.value).Naive?
  }

  /** Some row has a naive timestamp, so comparing it with the cutoff raises TypeError. */
  predicate HasNaive(parse: string -> Stamp, rows: seq<Row>)
    ensures rows == [] ==> !HasNaive(parse, rows)
  {
    exists i :: 0 <= i < |rows| && IsNaive(parse, rows[i])
  }

  /** The `keep` list `prune_history` builds: the surviving rows, in order. */
  function Kept(parse: string -> Stamp, cutoff: int, rows: seq<Row>): (kept: seq<Row>)
    ensures |kept| <= |rows|
  {
    if rows == [] then []
    else
      var last := rows[|rows| - 1];
      Kept(parse, cutoff, rows[..|rows| - 1]) + (if Keeps(parse, cutoff, last) then [last] else [])
  }

  /** Exactly the surviving rows are kept; a row with a missing or unparseable timestamp is dropped. */
  lemma {:induction false} KeptMembers(parse: string -> Stamp, cutoff: int, rows: seq<Row>, x: Row)
    ensures x in Kept(parse, cutoff, rows) <==> x in rows && Keeps(parse, cutoff, x)
  {
    if rows != [] {
      var init := rows[..|rows| - 1];
      assert rows == init + [rows[|rows| - 1]];
      KeptMembers(parse, cutoff, init, x);
    }
  }

  /** Each row is kept as many times as it occurs, if it survives, and otherwise not at all. */
  lemma {:induction false} KeptCounts(parse: string -> Stamp, cutoff: int, rows: seq<Row>, x: Row)
    ensures multiset(Kept(parse, cutoff, rows))[x] == if Keeps(parse, cutoff, x) then multiset(rows)[x] else 0
  {
    if rows != [] {
      var init := rows[..|rows| - 1];
      assert rows == init + [rows[|rows| - 1]];
      KeptCounts(parse, cutoff, init, x);
    }
  }

  ghost predicate StrictlyIncreasing(idx: seq<int>)
  {
    forall i, j :: 0 <= i < j < |idx| ==> idx[i] < idx[j]
  }

  /** `sub` is `s` with some elements left out and the rest in their order. */
  ghost predicate IsSubsequence<T>(sub: seq<T>, s: seq<T>)
  {
    exists idx: seq<int> ::
      && |idx| == |sub|
      && StrictlyIncreasing(idx)
      && forall i :: 0 <= i < |idx| ==> 0 <= idx[i] < |s| && sub[i] == s[idx[i]]
  }

  /** The positions in `rows` of the kept rows, increasing. */
  lemma {:induction false} KeptPositions(parse: string -> Stamp, cutoff: int, rows: seq<Row>)
    returns (idx: seq<int>)
    ensures |idx| == |Kept(parse, cutoff, rows)| && StrictlyIncreasing(idx)
    ensures forall i :: 0 <= i < |idx| ==> 0 <= idx[i] < |rows| && Kept(parse, cutoff, rows)[i] == rows[idx[i]]
  {
    if rows == [] {
      idx := [];
    } else {
      var n := |rows| - 1;
      var init := rows[..n];
      var prefix := KeptPositions(parse, cutoff, init);
      var pre := Kept(parse, cutoff, init);
      var kept := Kept(parse, cutoff, rows);
      if Keeps(parse, cutoff, rows[n]) {
        idx := prefix + [n];
        assert kept == pre + [rows[n]];
      } else {
        idx := prefix;
        assert kept == pre + [];
      }
      forall i | 0 <= i < |idx|
        ensures 0 <= idx[i] < |rows| && kept[i] == rows[idx[i]]
      {
        if i < |prefix| {
          assert idx[i] == prefix[i] && kept[i] == pre[i] && init[prefix[i]] == rows[prefix[i]];
        }
      }
      forall i, j | 0 <= i < j < |idx|
        ensures idx[i] < idx[j]
      {
        assert idx[i] == prefix[i] && prefix[i] < n;
      }
    }
  }

  /** Pruning keeps an order-preserving subsequence of the history. */
  lemma KeptIsSubsequence(parse: string -> Stamp, cutoff: int, rows: seq<Row>)
    ensures IsSubsequence(Kept(parse, cutoff, rows), rows)
  {
    var idx := KeptPositions(parse, cutoff, rows);
  }

  /** Pruning a pruned history again with the same cutoff changes nothing. */
  lemma {:induction false} KeptIdempotent(parse: string -> Stamp, cutoff: int, rows: seq<Row>)
    ensures Kept(parse, cutoff, Kept(parse, cutoff, rows)) == Kept(parse, cutoff, rows)
  {
    KeptLaterCutoff(parse, cutoff, cutoff, rows);
  }

  /** Pruning at an earlier cutoff and then at a later one is pruning at the later one. */
  lemma {:induction false} KeptLaterCutoff(parse: string -> Stamp, early: int, late: int, rows: seq<Row>)
    requires early <= late
    ensures Kept(parse, late, Kept(parse, early, rows)) == Kept(parse, late, rows)
  {
    if rows != [] {
      var init, last := rows[..|rows| - 1], rows[|rows| - 1];
      var pre := Kept(parse, early, init);
      KeptLaterCutoff(parse, early, late, init);
      if Keeps(parse, early, last) {
        assert (pre + [last])[..|pre|] == pre;
      } else {
        assert pre + [] == pre;
      }
    }
  }

  /** Every row left by a prune has an aware timestamp, so a second prune cannot raise. */
  lemma KeptHasNoNaive(parse: string -> Stamp, cutoff: int, rows: seq<Row>)
    ensures !HasNaive(parse, Kept(parse, cutoff, rows))
  {
    var kept := Kept(parse, cutoff, rows);
    forall i | 0 <= i < |kept|
      ensures !IsNaive(parse, kept[i])
    {
      KeptMembers(parse, cutoff, rows, kept[i]);
    }
  }

  /** A history sorted by timestamp stays sorted when pruned. */
  lemma KeptSorted(parse: string -> Stamp, cutoff: int, rows: seq<Row>)
    requires SortedByTs(rows)
    ensures SortedByTs(Kept(parse, cutoff, rows))
  {
    var idx := KeptPositions(parse, cutoff, rows);
  }

  /** A surviving row appended last stays last: the pruned history ends with it. */
  lemma KeptAppended(parse: string -> Stamp, cutoff: int, rows: seq<Row>, row: Row)
    requires Keeps(parse, cutoff, row)
    ensures Kept(parse, cutoff, rows + [row]) == Kept(parse, cutoff, rows) + [row]
  {
    assert (rows + [row])[..|rows|] == rows;
  }
}
