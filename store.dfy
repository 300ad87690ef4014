/**
 * The in-memory observation history (`HISTORY`, oldest row first) and the three
 * steps that change it: `prune_history`, the append-if-new step of `poll_latest`
 * and the clear/extend/prune step of `backfill_48h`. Each method is specified by
 * a function on values giving its outcome and the new history; the properties
 * of those functions are proved as lemmas.
 */
module Store {
  import opened Wrappers
  import opened Faults
  import opened Conversions
  import opened Observations
  import opened Ordering
  import opened Retention
  import opened Ingestion

  /** How a store operation ended: it changed the history, returned early, or raised. */
  datatype Outcome = Done | Skipped | Raised(fault: Fault)

  /** `latest_ts`: the timestamp of the newest row, None for an empty history. */
  function LatestTs(rows: seq<Row>): (latest: Option<string>)
    ensures rows == [] ==> latest.None?
    ensures rows != [] ==> latest == rows[|rows| - 1].ts
  {
    if rows == [] then None else rows[|rows| - 1].ts
  }

  /**
   * `prune_history` on `rows`: the surviving rows, unless some row has a naive
   * timestamp, in which case comparing it with the cutoff raises TypeError and
   * the history is left as it was.
   */
  function PruneEffect(parse: string -> Stamp, cutoff: int, rows: seq<Row>): (effect: (Outcome, seq<Row>))
    ensures effect.0 == Done || effect.0 == Raised(TypeError)
    ensures effect.0.Raised? ==> effect.1 == rows
    ensures |effect.1| <= |rows|
  {
    if HasNaive(parse, rows) then (Raised(TypeError), rows) else (Done, Kept(parse, cutoff, rows))
  }

  /**
   * `poll_latest` given the response status and the response's `properties`
   * member: returns early unless the status is 200; normalises the observation;
   * appends it and prunes only when its timestamp is non-empty and differs from
   * the newest one in the history.
   */
  function PollEffect(parse: string -> Stamp, m: MathLib, cutoff: int, status: int, props: PropertiesSlot, rows: seq<Row>): (effect: (Outcome, seq<Row>))
    ensures status != 200 ==> effect == (Skipped, rows)
    ensures effect.0 == Skipped ==> effect.1 == rows
    ensures |effect.1| <= |rows| + 1
  {
    if status != 200 then (Skipped, rows)
    else match ParseObsFeature(m, Feature(props))
      case Err(fault) => (Raised(fault), rows)
      case Ok(row) =>
        if row.ts.None? || row.ts.value == "" || row.ts == LatestTs(rows) then (Skipped, rows)
        else PruneEffect(parse, cutoff, rows + [row])
  }

  /**
   * `backfill_48h` given what the fetch returned: a fetch that raises leaves the
   * history alone; otherwise the history becomes the fetched rows, then pruned.
   */
  function BackfillEffect(parse: string -> Stamp, cutoff: int, fetched: Result<seq<Row>, Fault>, rows: seq<Row>): (effect: (Outcome, seq<Row>))
    ensures fetched.Err? ==> effect == (Raised(fetched.error), rows)
    ensures fetched.Ok? ==> effect.0 != Skipped && |effect.1| <= |fetched.value|
    ensures fetched.Ok? && !HasNaive(parse, fetched.value) ==> effect == (Done, Kept(parse, cutoff, fetched.value))
    ensures fetched.Ok? && HasNaive(parse, fetched.value) ==> effect == (Raised(TypeError), fetched.value)
  {
    if fetched.Err? then (Raised(fetched.error), rows)
    else PruneEffect(parse, cutoff, fetched.value)
  }

  /**
   * A prune that completes keeps, in their order, exactly the rows whose
   * timestamp parses to an instant at or after the cutoff; it raises exactly
   * when a row has a naive timestamp, and then changes nothing.
   */
  lemma PruneEffectSpec(parse: string -> Stamp, cutoff: int, rows: seq<Row>)
    ensures var (outcome, after) := PruneEffect(parse, cutoff, rows);
      && (outcome == Done || outcome == Raised(TypeError))
      && (outcome == Raised(TypeError) <==> exists i :: 0 <= i < |rows| && IsNaive(parse, rows[i]))
      && (outcome.Raised? ==> after == rows)
      && (outcome == Done ==> IsSubsequence(after, rows))
      && (outcome == Done ==> forall x :: x in after <==> x in rows && Keeps(parse, cutoff, x))
      && (outcome == Done ==> forall x :: multiset(after)[x] == if Keeps(parse, cutoff, x) then multiset(rows)[x] else 0)
  {
    var (outcome, after) := PruneEffect(parse, cutoff, rows);
    if outcome == Done {
      KeptIsSubsequence(parse, cutoff, rows);
      forall x
        ensures x in after <==> x in rows && Keeps(parse, cutoff, x)
      {
        KeptMembers(parse, cutoff, rows, x);
      }
      forall x
        ensures multiset(after)[x] == if Keeps(parse, cutoff, x) then multiset(rows)[x] else 0
      {
        KeptCounts(parse, cutoff, rows, x);
      }
    }
  }

  /** Pruning twice with the same cutoff is pruning once: the second prune completes and changes nothing. */
  lemma PruneTwice(parse: string -> Stamp, cutoff: int, rows: seq<Row>)
    requires PruneEffect(parse, cutoff, rows).0 == Done
    ensures var after := PruneEffect(parse, cutoff, rows).1;
      PruneEffect(parse, cutoff, after) == (Done, after)
  {
    KeptHasNoNaive(parse, cutoff, rows);
    KeptIdempotent(parse, cutoff, rows);
  }

  /**
   * A poll changes the history only when the status is 200, the observation
   * normalises and its timestamp is non-empty and new; every other poll leaves
   * the history as it was.
   */
  lemma PollChangesOnlyNewRows(parse: string -> Stamp, m: MathLib, cutoff: int, status: int, props: PropertiesSlot, rows: seq<Row>)
    ensures var (outcome, after) := PollEffect(parse, m, cutoff, status, props, rows);
      var parsed := ParseObsFeature(m, Feature(props));
      && (outcome == Skipped <==>
            status != 200 || (parsed.Ok? && (parsed.value.ts.None? || parsed.value.ts == Some("") || parsed.value.ts == LatestTs(rows))))
      && (outcome == Skipped ==> after == rows)
      // a feature that raises propagates, before anything is appended
      && (status == 200 && parsed.Err? ==> outcome == Raised(parsed.error) && after == rows)
      // a prune that raises after the append leaves the new row in, unpruned
      && (status == 200 && parsed.Ok? && outcome.Raised? ==> after == rows + [parsed.value])
  {
  }

  /**
   * A poll whose row survives the prune leaves that row newest in the history,
   * after the earlier survivors.
   */
  lemma {:induction false} PollAppendsNewest(parse: string -> Stamp, m: MathLib, cutoff: int, props: PropertiesSlot, rows: seq<Row>)
    requires PollEffect(parse, m, cutoff, 200, props, rows).0 == Done
    requires Keeps(parse, cutoff, ParseObsFeature(m, Feature(props)).value)
    ensures var row := ParseObsFeature(m, Feature(props)).value;
      var after := PollEffect(parse, m, cutoff, 200, props, rows).1;
      && after == Kept(parse, cutoff, rows) + [row]
      && LatestTs(after) == row.ts
  {
    var row := ParseObsFeature(m, Feature(props)).value;
    KeptAppended(parse, cutoff, rows, row);
  }

  /**
   * Polling the same observation twice appends it once: once it is newest in
   * the history, the second poll returns early, whatever the cutoff by then.
   */
  lemma PollTwiceAppendsOnce(parse: string -> Stamp, m: MathLib, cutoff: int, later: int, props: PropertiesSlot, rows: seq<Row>)
    requires PollEffect(parse, m, cutoff, 200, props, rows).0 == Done
    requires Keeps(parse, cutoff, ParseObsFeature(m, Feature(props)).value)
    ensures var after := PollEffect(parse, m, cutoff, 200, props, rows).1;
      PollEffect(parse, m, later, 200, props, after) == (Skipped, after)
  {
    PollAppendsNewest(parse, m, cutoff, props, rows);
  }

  /**
   * A polled row that the prune drops (a stale or unparseable timestamp) leaves
   * no trace, so the next poll of the same observation is not skipped as a
   * duplicate unless the newest surviving row carries the same timestamp.
   */
  lemma DroppedRowIsPolledAgain(parse: string -> Stamp, m: MathLib, cutoff: int, later: int, props: PropertiesSlot, rows: seq<Row>)
    requires PollEffect(parse, m, cutoff, 200, props, rows).0 == Done
    requires !Keeps(parse, cutoff, ParseObsFeature(m, Feature(props)).value)
    ensures var row := ParseObsFeature(m, Feature(props)).value;
      var after := PollEffect(parse, m, cutoff, 200, props, rows).1;
      && after == Kept(parse, cutoff, rows)
      && (LatestTs(after) != row.ts ==> PollEffect(parse, m, later, 200, props, after).0 != Skipped)
  {
    var row := ParseObsFeature(m, Feature(props)).value;
    assert (rows + [row])[..|rows|] == rows;
    assert Kept(parse, cutoff, rows) + [] == Kept(parse, cutoff, rows);
  }

  /**
   * The duplicate check looks at the newest row only: an observation whose
   * timestamp equals an older row's, but not the newest one's, is appended
   * again, and when both survive the prune the history holds the timestamp twice.
   */
  lemma DuplicateCheckIsTailOnly(parse: string -> Stamp, m: MathLib, cutoff: int, props: PropertiesSlot, rows: seq<Row>, i: int)
    requires ParseObsFeature(m, Feature(props)).Ok?
    requires var row := ParseObsFeature(m, Feature(props)).value;
      && row.ts.Some? && row.ts.value != ""
      && 0 <= i < |rows| && rows[i].ts == row.ts && LatestTs(rows) != row.ts
      && !HasNaive(parse, rows + [row])
      && Keeps(parse, cutoff, rows[i]) && Keeps(parse, cutoff, row)
    ensures var (outcome, after) := PollEffect(parse, m, cutoff, 200, props, rows);
      && outcome == Done
      && exists j, k :: 0 <= j < k < |after| && after[j].ts == after[k].ts == ParseObsFeature(m, Feature(props)).value.ts
  {
    var row := ParseObsFeature(m, Feature(props)).value;
    var after := PollEffect(parse, m, cutoff, 200, props, rows).1;
    KeptAppended(parse, cutoff, rows, row);
    var kept := Kept(parse, cutoff, rows);
    KeptMembers(parse, cutoff, rows, rows[i]);
    var j :| 0 <= j < |kept| && kept[j] == rows[i];
    assert after[j] == rows[i] && after[|kept|] == row;
  }

  /**
   * A completed backfill replaces the whole history: the result depends only on
   * the fetched rows, is sorted by timestamp, and holds exactly the fetched rows
   * that survive the prune.
   */
  lemma BackfillReplaces(parse: string -> Stamp, cutoff: int, gathered: seq<Row>, rows: seq<Row>)
    ensures var (outcome, after) := BackfillEffect(parse, cutoff, Ok(SortByTs(gathered)), rows);
      && (outcome == Done || outcome == Raised(TypeError))
      && (outcome == Done ==> SortedByTs(after))
      && (outcome == Done ==> forall x :: x in after <==> x in gathered && Keeps(parse, cutoff, x))
      && (outcome == Done ==> forall x :: multiset(after)[x] == if Keeps(parse, cutoff, x) then multiset(gathered)[x] else 0)
      && (outcome.Raised? ==> after == SortByTs(gathered))
  {
    var sorted := SortByTs(gathered);
    if !HasNaive(parse, sorted) {
      KeptSorted(parse, cutoff, sorted);
      forall x
        ensures x in Kept(parse, cutoff, sorted) <==> x in gathered && Keeps(parse, cutoff, x)
      {
        KeptMembers(parse, cutoff, sorted, x);
        assert x in sorted <==> x in multiset(sorted);
      }
      forall x
        ensures multiset(Kept(parse, cutoff, sorted))[x] == if Keeps(parse, cutoff, x) then multiset(gathered)[x] else 0
      {
        KeptCounts(parse, cutoff, sorted, x);
      }
    }
  }

  /** `HISTORY`, oldest row first, and the timestamp parser that prunes it. */
  class History {
    var rows: seq<Row>
    const parse: string -> Stamp

    /** An empty history, as at start-up. */
    constructor (parse: string -> Stamp)
      ensures this.parse == parse && rows == []
    {
      this.parse := parse;
      rows := [];
    }

    /**
     * `prune_history` at time `now` (microseconds): builds the list of rows to
     * keep, then replaces the history with it; a row with a missing or
     * unparseable timestamp is skipped, a naive one raises.
     */
    method Prune(now: int) returns (outcome: Outcome)
      modifies this
      ensures (outcome, rows) == PruneEffect(parse, Cutoff(now), old(rows))
    {
      var cutoff := Cutoff(now);
      var keep: seq<Row> := [];
      for i := 0 to |rows|
        invariant keep == Kept(parse, cutoff, rows[..i])
        invariant forall j :: 0 <= j < i ==> !IsNaive(parse, rows[j])
      {
        var row := rows[i];
        assert rows[..i + 1][..i] == rows[..i];
        if row.ts.None? {
          // `.replace` on a missing timestamp raises inside the `try`: skipped
          continue;
        }
        match parse(row.ts.value)
        case Unparseable =>
        case Naive =>
          assert IsNaive(parse, rows[i]);
          return Raised(TypeError);
        case Aware(instant) =>
          if instant >= cutoff {
            keep := keep + [row];
          }
      }
      assert rows[..|rows|] == rows;
      rows := keep;
      outcome := Done;
    }

    /**
     * The history step of `poll_latest` at time `now`, given the response status
     * and the `properties` member of its body.
     */
    method Poll(m: MathLib, now: int, status: int, props: PropertiesSlot) returns (outcome: Outcome)
      modifies this
      ensures (outcome, rows) == PollEffect(parse, m, Cutoff(now), status, props, old(rows))
    {
      if status != 200 {
        return Skipped;
      }
      var parsed := ParseObsFeature(m, Feature(props));
      if parsed.Err? {
        return Raised(parsed.error);
      }
      var row := parsed.value;
      if row.ts.Some? && row.ts.value != "" && row.ts != LatestTs(rows) {
        rows := rows + [row];
        outcome := Prune(now);
      } else {
        outcome := Skipped;
      }
    }

    /**
     * `backfill_48h` at time `now`, given the responses of the upstream
     * collection: fetch, then clear the history, extend it with the fetched
     * rows and prune. Returns the outcome and the requests made.
     */
    method Backfill(m: MathLib, now: int, pages: seq<Page>) returns (outcome: Outcome, requests: seq<Request>)
      requires EndsFrom(Normalise(m), pages, 0)
      modifies this
      ensures requests == Walk(Normalise(m), pages).1
      ensures var walk := Walk(Normalise(m), pages).0;
        var fetched := if walk.Err? then walk else Ok(SortByTs(walk.value));
        (outcome, rows) == BackfillEffect(parse, Cutoff(now), fetched, old(rows))
    {
      var fetched;
      fetched, requests := FetchObservations(m, pages);
      if fetched.Err? {
        return Raised(fetched.error), requests;
      }
      rows := [];
      rows := rows + fetched.value;
      assert rows == fetched.value;
      outcome := Prune(now);
    }
  }
}
