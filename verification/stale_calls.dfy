/**
 * The stale-call reconciler: a sweep that force-closes the calls left
 * open between one and two hours ago. Sweep is its effect on ledger
 * values; CheckStaleCalls carries it out row by row against a CallTable.
 */
module StaleCalls {
  import opened Wrappers
  import opened Calls

  /** An open call that started between two hours and one hour before `now`, both ends included. */
  predicate InSweepWindow(c: Call, now: int) {
    c.status == Started && now - TWO_HOURS_MS <= c.started <= now - ONE_HOUR_MS
  }

  /** The rows the candidate query returns. */
  function Candidates(rows: Ledger, now: int): (ids: set<string>)
    ensures ids <= rows.Keys
    ensures forall id | id in rows :: id in ids <==> InSweepWindow(rows[id], now)
  {
    set id | id in rows && InSweepWindow(rows[id], now)
  }

  /** The forced close: ended now, with the whole seconds since the start and no one-hour ceiling. */
  function ForceClosed(c: Call, now: int): (d: Call)
    ensures d.status == Ended && d.ended == Some(now) && d.duration.Some?
    ensures d.duration.value * 1000 <= now - c.started < d.duration.value * 1000 + 1000
    ensures d.id == c.id && d.fromNumber == c.fromNumber && d.toNumber == c.toNumber && d.started == c.started
  {
    Closed(c, now, ElapsedSeconds(c.started, now))
  }

  /** A call in the window has been open between one and two hours, so its forced duration is too. */
  lemma ForceClosedWithinTwoHours(c: Call, now: int)
    requires InSweepWindow(c, now)
    ensures var d := ForceClosed(c, now).duration; d.Some? && 3600 <= d.value <= 7200
  {
    var e := ElapsedSeconds(c.started, now);
    assert 3_600_000 <= now - c.started <= 7_200_000;
    assert e * 1000 <= 7_200_000 && 3_600_000 < e * 1000 + 1000;
  }

  /** The ledger with the rows in `ids` force-closed and every other row as it was. */
  function CloseAll(rows: Ledger, ids: set<string>, now: int): (r: Ledger)
    ensures r.Keys == rows.Keys
    ensures forall id | id in rows && id !in ids :: r[id] == rows[id]
    ensures forall id | id in rows && id in ids :: r[id] == ForceClosed(rows[id], now)
  {
    map id | id in rows :: if id in ids then ForceClosed(rows[id], now) else rows[id]
  }

  /**
   * One sweep at instant `now` in which the updates of the rows in
   * `rowFails` report an error.
   */
  function Sweep(rows: Ledger, now: int, rowFails: set<string>): (r: Ledger)
    ensures r.Keys == rows.Keys
    ensures forall id | id in rows && (!InSweepWindow(rows[id], now) || id in rowFails) :: r[id] == rows[id]
    ensures forall id | id in rows && InSweepWindow(rows[id], now) && id !in rowFails ::
      && r[id].status == Ended && r[id].ended == Some(now)
      && r[id].duration == Some(ElapsedSeconds(rows[id].started, now))
      && r[id].id == rows[id].id && r[id].started == rows[id].started
      && r[id].fromNumber == rows[id].fromNumber && r[id].toNumber == rows[id].toNumber
  {
    CloseAll(rows, Candidates(rows, now) - rowFails, now)
  }

  /** Force-closing one more row extends the closed set by that row. */
  lemma CloseAllStep(rows: Ledger, ids: set<string>, id: string, now: int)
    requires id in rows && id !in ids
    ensures CloseAll(rows, ids, now)[id := ForceClosed(rows[id], now)] == CloseAll(rows, ids + {id}, now)
  {
  }

  /**
   * checkStaleCalls: fetch the candidates (or give up with 0 when the
   * fetch fails), then update each one, counting the updates that succeed.
   * The rows are visited in no particular order.
   */
  method CheckStaleCalls(table: CallTable, now: int, fetchFails: bool, rowFails: set<string>)
    returns (updatedCount: nat)
    modifies table
    ensures fetchFails ==> updatedCount == 0 && table.rows == old(table.rows)
    ensures !fetchFails ==> table.rows == Sweep(old(table.rows), now, rowFails)
    ensures !fetchFails ==> updatedCount == |Candidates(old(table.rows), now) - rowFails|
    ensures updatedCount <= |Candidates(old(table.rows), now)|
  {
    if fetchFails {
      return 0;
    }
    ghost var before := table.rows;
    var data := Candidates(table.rows, now);
    var pending := data;
    ghost var closed: set<string> := {};
    updatedCount := 0;
    while pending != {}
      invariant pending <= data
      invariant forall x :: x in closed <==> x in data && x !in pending && x !in rowFails
      invariant table.rows == CloseAll(before, closed, now)
      invariant updatedCount == |closed|
      decreases pending
    {
      var id :| id in pending;
      if id !in rowFails {
        table.Close(id, now, ElapsedSeconds(table.rows[id].started, now));
        CloseAllStep(before, closed, id, now);
        closed := closed + {id};
        updatedCount := updatedCount + 1;
      }
      pending := pending - {id};
    }
    assert closed == data - rowFails;
    SubsetCardinality(closed, data);
  }

  /** Every duration a sweep writes lies between one and two hours. */
  lemma SweepDurationsWithinTwoHours(rows: Ledger, now: int, rowFails: set<string>)
    ensures var r := Sweep(rows, now, rowFails);
      forall id | id in rows && r[id] != rows[id] ::
        r[id].duration.Some? && 3600 <= r[id].duration.value <= 7200
  {
    var r := Sweep(rows, now, rowFails);
    forall id | id in rows && r[id] != rows[id]
      ensures r[id].duration.Some? && 3600 <= r[id].duration.value <= 7200
    {
      ForceClosedWithinTwoHours(rows[id], now);
    }
  }

  /** A second sweep at the same instant with the same failures changes nothing. */
  lemma SweepIdempotent(rows: Ledger, now: int, rowFails: set<string>)
    ensures Sweep(Sweep(rows, now, rowFails), now, rowFails) == Sweep(rows, now, rowFails)
  {
    var once := Sweep(rows, now, rowFails);
    var twice := Sweep(once, now, rowFails);
    forall id | id in once
      ensures twice[id] == once[id]
    {
      assert !InSweepWindow(once[id], now) || id in rowFails;
    }
  }

  /** Retrying at the same instant without failures finishes what a sweep with failures left open. */
  lemma SweepRetryCompletes(rows: Ledger, now: int, rowFails: set<string>)
    ensures Sweep(Sweep(rows, now, rowFails), now, {}) == Sweep(rows, now, {})
  {
    var once := Sweep(rows, now, rowFails);
    var retried := Sweep(once, now, {});
    var clean := Sweep(rows, now, {});
    forall id | id in rows
      ensures retried[id] == clean[id]
    {
      if InSweepWindow(rows[id], now) && id !in rowFails {
        assert !InSweepWindow(once[id], now);
      }
    }
  }

  /** The sweep keeps the ledger well formed: each forced close records a duration within two hours. */
  lemma SweepPreservesLedgerValid(rows: Ledger, now: int, rowFails: set<string>)
    requires LedgerValid(rows)
    ensures LedgerValid(Sweep(rows, now, rowFails))
  {
    var r := Sweep(rows, now, rowFails);
    forall id | id in r
      ensures WellFormed(id, r[id])
    {
      if r[id] != rows[id] {
        ForceClosedWithinTwoHours(rows[id], now);
      }
    }
  }

  /**
   * The scenarios of a single open row: started 90 minutes ago it is closed
   * with 5400 s, past the one-hour ceiling; started 30 or 150 minutes ago
   * it is left as it is.
   */
  lemma SweepScenarios(c: Call, now: int)
    requires c.status == Started
    ensures c.started == now - 90 * 60 * 1000 ==>
      Sweep(map[c.id := c], now, {})[c.id] == Closed(c, now, 5400)
    ensures c.started == now - 30 * 60 * 1000 || c.started == now - 150 * 60 * 1000 ==>
      Sweep(map[c.id := c], now, {}) == map[c.id := c]
  {
  }
}
