/** The bounded history of database sizes (src-tauri/src/health/snapshots.rs).
 *
 *  `datetime()` reduces both sides of every comparison to whole seconds, so instants are
 *  integers here. Nothing is assumed about the order of clock readings.
 */
module Snapshots {

  const HOUR: int := 3600
  const RETENTION: int := 30 * 24 * HOUR
  const MAX_ROWS: nat := 721

  datatype Row = Row(connectionId: string, takenAt: int, dbSizeBytes: int)

  /** Some row of `id` is less than an hour older than `now`, or newer. */
  predicate HasRecent(rows: seq<Row>, id: string, now: int) {
    exists i :: 0 <= i < |rows| && rows[i].connectionId == id && rows[i].takenAt > now - HOUR
  }

  /** The rows of `id`, in the order they were inserted. */
  function RowsOf(rows: seq<Row>, id: string): seq<Row> {
    if rows == [] then []
    else
      var init, last := rows[..|rows| - 1], rows[|rows| - 1];
      if last.connectionId == id then RowsOf(init, id) + [last] else RowsOf(init, id)
  }

  /** The table without the rows of `id` older than `cutoff`. */
  function Retained(rows: seq<Row>, id: string, cutoff: int): seq<Row> {
    if rows == [] then []
    else
      var init, last := rows[..|rows| - 1], rows[|rows| - 1];
      if last.connectionId == id && last.takenAt < cutoff then Retained(init, id, cutoff)
      else Retained(init, id, cutoff) + [last]
  }

  function Saved(rows: seq<Row>, id: string, now: int, size: int): seq<Row> {
    Retained(if HasRecent(rows, id, now) then rows else rows + [Row(id, now, size)], id, now - RETENTION)
  }

  class HealthSnapshots {
    var rows: seq<Row>

    constructor ()
      ensures rows == []
    {
      rows := [];
    }

    /** One transaction: insert unless there is a recent row, then drop what is too old. */
    method Save(id: string, now: int, size: int)
      modifies this
      ensures rows == Saved(old(rows), id, now, size)
    {
      if !HasRecent(rows, id, now) {
        rows := rows + [Row(id, now, size)];
      }
      var kept := [];
      for i := 0 to |rows|
        invariant rows == if HasRecent(old(rows), id, now) then old(rows) else old(rows) + [Row(id, now, size)]
        invariant kept == Retained(rows[..i], id, now - RETENTION)
      {
        assert rows[..i + 1][..i] == rows[..i];
        if !(rows[i].connectionId == id && rows[i].takenAt < now - RETENTION) {
          kept := kept + [rows[i]];
        }
      }
      assert rows[..|rows|] == rows;
      rows := kept;
    }

    /** Deleting a connection takes its snapshots along (`ON DELETE CASCADE`). */
    method DeleteConnection(id: string)
      modifies this
      ensures rows == WithoutRowsOf(old(rows), id)
    {
      var kept := [];
      for i := 0 to |rows|
        invariant rows == old(rows)
        invariant kept == WithoutRowsOf(rows[..i], id)
      {
        assert rows[..i + 1][..i] == rows[..i];
        if rows[i].connectionId != id {
          kept := kept + [rows[i]];
        }
      }
      assert rows[..|rows|] == rows;
      rows := kept;
    }
  }

  function WithoutRowsOf(rows: seq<Row>, id: string): seq<Row> {
    if rows == [] then []
    else
      var init, last := rows[..|rows| - 1], rows[|rows| - 1];
      if last.connectionId == id then WithoutRowsOf(init, id) else WithoutRowsOf(init, id) + [last]
  }

  // ---------------------------------------------------------------------------
  // Runs.
  // ---------------------------------------------------------------------------

  datatype Event = Save(id: string, now: int, size: int) | Delete(id: string)

  function Step(rows: seq<Row>, e: Event): seq<Row> {
    match e
    case Save(id, now, size) => Saved(rows, id, now, size)
    case Delete(id) => WithoutRowsOf(rows, id)
  }

  /** The table after a run from an empty one. */
  function Run(events: seq<Event>): seq<Row> {
    if events == [] then [] else Step(Run(events[..|events| - 1]), events[|events| - 1])
  }

  ghost predicate Gapped(rows: seq<Row>) {
    forall i :: 0 <= i < |rows| - 1 ==> rows[i + 1].takenAt - rows[i].takenAt >= HOUR
  }

  /** One connection's rows: inserted an hour or more apart, and within the retention span. */
  ghost predicate Spread(rows: seq<Row>) {
    && Gapped(rows)
    && (rows != [] ==> rows[|rows| - 1].takenAt - rows[0].takenAt <= RETENTION)
  }

  // ---------------------------------------------------------------------------
  // Proofs.
  // ---------------------------------------------------------------------------

  /** Rows dropped for age are the first ones, since a connection's rows ascend. */
  function DropOlder(rows: seq<Row>, cutoff: int): seq<Row> {
    if rows != [] && rows[0].takenAt < cutoff then DropOlder(rows[1..], cutoff) else rows
  }

  lemma RowsOfSnoc(rows: seq<Row>, last: Row, id: string)
    ensures RowsOf(rows + [last], id) == if last.connectionId == id then RowsOf(rows, id) + [last] else RowsOf(rows, id)
  {
    assert (rows + [last])[..|rows|] == rows;
  }

  lemma {:induction false} RetainedForOthers(rows: seq<Row>, id: string, cutoff: int, other: string)
    requires other != id
    ensures RowsOf(Retained(rows, id, cutoff), other) == RowsOf(rows, other)
  {
    if rows != [] {
      var init, last := rows[..|rows| - 1], rows[|rows| - 1];
      RetainedForOthers(init, id, cutoff, other);
      if !(last.connectionId == id && last.takenAt < cutoff) {
        RowsOfSnoc(Retained(init, id, cutoff), last, other);
      }
    }
  }

  lemma {:induction false} WithoutForOthers(rows: seq<Row>, id: string, other: string)
    ensures RowsOf(WithoutRowsOf(rows, id), other) == if other == id then [] else RowsOf(rows, other)
  {
    if rows != [] {
      var init, last := rows[..|rows| - 1], rows[|rows| - 1];
      WithoutForOthers(init, id, other);
      if last.connectionId != id {
        RowsOfSnoc(WithoutRowsOf(init, id), last, other);
      }
    }
  }

  lemma {:induction false} DropOlderSnoc(rows: seq<Row>, last: Row, cutoff: int)
    requires forall i :: 0 <= i < |rows| ==> rows[i].takenAt <= last.takenAt
    ensures DropOlder(rows + [last], cutoff)
         == if last.takenAt < cutoff then [] else DropOlder(rows, cutoff) + [last]
  {
    if rows == [] {
      assert rows + [last] == [last];
      assert [last][1..] == [];
    } else if rows[0].takenAt < cutoff {
      assert (rows + [last])[1..] == rows[1..] + [last];
      DropOlderSnoc(rows[1..], last, cutoff);
    }
  }

  lemma {:induction false} Ascending(rows: seq<Row>, i: nat, j: nat)
    requires i <= j < |rows| && Gapped(rows)
    ensures rows[j].takenAt - rows[i].takenAt >= (j - i) * HOUR
    decreases j
  {
    if i < j {
      Ascending(rows, i, j - 1);
    }
  }

  lemma {:induction false} RetainedForSelf(rows: seq<Row>, id: string, cutoff: int)
    requires Gapped(RowsOf(rows, id))
    ensures RowsOf(Retained(rows, id, cutoff), id) == DropOlder(RowsOf(rows, id), cutoff)
  {
    if rows != [] {
      var init, last := rows[..|rows| - 1], rows[|rows| - 1];
      var own, before := RowsOf(rows, id), RowsOf(init, id);
      if last.connectionId == id {
        assert own == before + [last];
        GappedPrefix(own, |before|);
        forall i | 0 <= i < |before| ensures before[i].takenAt <= last.takenAt {
          Ascending(own, i, |own| - 1);
        }
        DropOlderSnoc(before, last, cutoff);
        RetainedForSelf(init, id, cutoff);
        RowsOfSnoc(Retained(init, id, cutoff), last, id);
        if last.takenAt < cutoff {
          AllDropped(before, cutoff);
        }
      } else {
        RetainedForSelf(init, id, cutoff);
        RowsOfSnoc(Retained(init, id, cutoff), last, id);
      }
    }
  }

  lemma GappedPrefix(rows: seq<Row>, n: nat)
    requires Gapped(rows) && n <= |rows|
    ensures Gapped(rows[..n])
  {
  }

  lemma {:induction false} AllDropped(rows: seq<Row>, cutoff: int)
    requires forall i :: 0 <= i < |rows| ==> rows[i].takenAt < cutoff
    ensures DropOlder(rows, cutoff) == []
  {
    if rows != [] { AllDropped(rows[1..], cutoff); }
  }

  lemma {:induction false} DropOlderIsSuffix(rows: seq<Row>, cutoff: int)
    ensures var kept := DropOlder(rows, cutoff);
            && |kept| <= |rows| && kept == rows[|rows| - |kept|..]
            && (kept != [] ==> kept[0].takenAt >= cutoff)
  {
    if rows != [] && rows[0].takenAt < cutoff {
      DropOlderIsSuffix(rows[1..], cutoff);
    }
  }

  lemma {:induction false} RecentRowOf(rows: seq<Row>, id: string, now: int)
    ensures HasRecent(rows, id, now) <==> exists i :: 0 <= i < |RowsOf(rows, id)| && RowsOf(rows, id)[i].takenAt > now - HOUR
  {
    if rows != [] {
      var init, last := rows[..|rows| - 1], rows[|rows| - 1];
      RecentRowOf(init, id, now);
      var own := RowsOf(rows, id);
      assert forall i :: 0 <= i < |RowsOf(init, id)| ==> own[i] == RowsOf(init, id)[i];
      if last.connectionId == id {
        assert own[|own| - 1] == last && |own| == |RowsOf(init, id)| + 1;
        assert rows[|rows| - 1] == last;
      }
      assert forall i :: 0 <= i < |init| ==> rows[i] == init[i];
    }
  }

  lemma SaveKeepsSpread(rows: seq<Row>, id: string, now: int, size: int)
    requires Spread(RowsOf(rows, id))
    ensures Spread(RowsOf(Saved(rows, id, now, size), id))
  {
    var own := RowsOf(rows, id);
    RecentRowOf(rows, id, now);
    if HasRecent(rows, id, now) {
      RetainedForSelf(rows, id, now - RETENTION);
      DropOlderIsSuffix(own, now - RETENTION);
      SuffixKeepsSpread(own, |DropOlder(own, now - RETENTION)|);
    } else {
      var last := Row(id, now, size);
      RowsOfSnoc(rows, last, id);
      InsertKeepsGaps(own, last);
      RetainedForSelf(rows + [last], id, now - RETENTION);
      InsertKeepsSpread(own, last);
    }
  }

  /** What a save means for the connection: unless it has a row of the last hour or newer the
   *  newest row is the one saved, and of the earlier ones exactly the expired are gone. */
  lemma SaveReadsBack(rows: seq<Row>, id: string, now: int, size: int)
    requires Spread(RowsOf(rows, id))
    ensures var own, after := RowsOf(rows, id), RowsOf(Saved(rows, id, now, size), id);
            if exists i :: 0 <= i < |own| && own[i].takenAt > now - HOUR
            then after == DropOlder(own, now - RETENTION)
            else after == DropOlder(own, now - RETENTION) + [Row(id, now, size)]
  {
    var own, last := RowsOf(rows, id), Row(id, now, size);
    RecentRowOf(rows, id, now);
    if HasRecent(rows, id, now) {
      RetainedForSelf(rows, id, now - RETENTION);
    } else {
      RowsOfSnoc(rows, last, id);
      InsertKeepsGaps(own, last);
      RetainedForSelf(rows + [last], id, now - RETENTION);
      DropOlderSnoc(own, last, now - RETENTION);
    }
  }

  lemma InsertKeepsGaps(own: seq<Row>, last: Row)
    requires Gapped(own) && forall i :: 0 <= i < |own| ==> own[i].takenAt <= last.takenAt - HOUR
    ensures Gapped(own + [last])
  {
  }

  lemma InsertKeepsSpread(own: seq<Row>, last: Row)
    requires Gapped(own + [last])
    ensures Spread(DropOlder(own + [last], last.takenAt - RETENTION))
  {
    var all := own + [last];
    var kept := DropOlder(all, last.takenAt - RETENTION);
    DropOlderIsSuffix(all, last.takenAt - RETENTION);
    assert kept != [] ==> kept[|kept| - 1] == last;
    assert forall i :: 0 <= i < |kept| ==> kept[i] == all[|all| - |kept| + i];
  }

  lemma SuffixKeepsSpread(rows: seq<Row>, n: nat)
    requires Spread(rows) && n <= |rows|
    ensures Spread(rows[|rows| - n..])
  {
    if n > 0 {
      Ascending(rows, 0, |rows| - n);
    }
  }

  lemma StepKeepsSpread(rows: seq<Row>, e: Event, id: string)
    requires Spread(RowsOf(rows, id))
    ensures Spread(RowsOf(Step(rows, e), id))
  {
    match e
    case Save(saved, now, size) =>
      if saved == id {
        SaveKeepsSpread(rows, id, now, size);
      } else {
        SaveLeavesOthers(rows, saved, now, size, id);
      }
    case Delete(deleted) => WithoutForOthers(rows, deleted, id);
  }

  /** Saving for one connection leaves every other connection's rows alone. */
  lemma SaveLeavesOthers(rows: seq<Row>, id: string, now: int, size: int, other: string)
    requires other != id
    ensures RowsOf(Saved(rows, id, now, size), other) == RowsOf(rows, other)
  {
    RowsOfSnoc(rows, Row(id, now, size), other);
    RetainedForOthers(rows, id, now - RETENTION, other);
    RetainedForOthers(rows + [Row(id, now, size)], id, now - RETENTION, other);
  }

  lemma {:induction false} RunIsSpread(events: seq<Event>, id: string)
    ensures Spread(RowsOf(Run(events), id))
  {
    if events != [] {
      RunIsSpread(events[..|events| - 1], id);
      StepKeepsSpread(Run(events[..|events| - 1]), events[|events| - 1], id);
    }
  }

  /** After any run, with any clock readings, a connection's rows are pairwise an hour or more
   *  apart, in ascending order. */
  lemma RowsAnHourApart(events: seq<Event>, id: string, i: nat, j: nat)
    requires i < j < |RowsOf(Run(events), id)|
    ensures RowsOf(Run(events), id)[j].takenAt - RowsOf(Run(events), id)[i].takenAt >= HOUR
  {
    RunIsSpread(events, id);
    Ascending(RowsOf(Run(events), id), i, j);
  }

  /** After any run, with any clock readings, a connection has at most 721 rows. */
  lemma AtMost721Rows(events: seq<Event>, id: string)
    ensures |RowsOf(Run(events), id)| <= MAX_ROWS
  {
    var own := RowsOf(Run(events), id);
    RunIsSpread(events, id);
    if own != [] {
      Ascending(own, 0, |own| - 1);
    }
  }

  // ---------------------------------------------------------------------------
  // The bound is attained.
  // ---------------------------------------------------------------------------

  function Hourly(n: nat): seq<Event> {
    seq(n, i => Save("c", i * HOUR, 0))
  }

  function HourlyRows(n: nat): seq<Row> {
    seq(n, i => Row("c", i * HOUR, 0))
  }

  lemma {:induction false} NothingRetired(rows: seq<Row>, id: string, cutoff: int)
    requires forall i :: 0 <= i < |rows| ==> rows[i].takenAt >= cutoff
    ensures Retained(rows, id, cutoff) == rows
  {
    if rows != [] { NothingRetired(rows[..|rows| - 1], id, cutoff); }
  }

  lemma HourlyStep(n: nat)
    requires 0 < n <= MAX_ROWS
    ensures Saved(HourlyRows(n - 1), "c", (n - 1) * HOUR, 0) == HourlyRows(n)
  {
    assert !HasRecent(HourlyRows(n - 1), "c", (n - 1) * HOUR);
    assert HourlyRows(n) == HourlyRows(n - 1) + [Row("c", (n - 1) * HOUR, 0)];
    NothingRetired(HourlyRows(n), "c", (n - 1) * HOUR - RETENTION);
  }

  lemma {:induction false} HourlyRun(n: nat)
    requires n <= MAX_ROWS
    ensures Run(Hourly(n)) == HourlyRows(n)
  {
    if n > 0 {
      HourlyRun(n - 1);
      HourlyStep(n);
      hide Saved;
      assert Hourly(n)[..n - 1] == Hourly(n - 1);
      assert Hourly(n)[n - 1] == Save("c", (n - 1) * HOUR, 0);
    }
  }

  lemma {:induction false} HourlyRowsOwned(n: nat)
    ensures RowsOf(HourlyRows(n), "c") == HourlyRows(n)
  {
    if n > 0 {
      HourlyRowsOwned(n - 1);
      assert HourlyRows(n) == HourlyRows(n - 1) + [Row("c", (n - 1) * HOUR, 0)];
      RowsOfSnoc(HourlyRows(n - 1), Row("c", (n - 1) * HOUR, 0), "c");
    }
  }

  /** Saving once an hour for 30 days keeps 721 rows. */
  lemma BoundAttained()
    ensures |RowsOf(Run(Hourly(MAX_ROWS)), "c")| == MAX_ROWS
  {
    HourlyRun(MAX_ROWS);
    HourlyRowsOwned(MAX_ROWS);
  }
}
