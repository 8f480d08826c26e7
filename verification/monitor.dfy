/**
 * The monitor endpoint: a read-only count of the calls still open more
 * than two hours after they started, the ones the reconciler's window
 * has already passed by.
 */
module Monitor {
  import opened Calls
  import opened StaleCalls

  /** Open calls that started strictly before two hours ago. */
  function Overdue(rows: Ledger, now: int): (ids: set<string>)
    ensures ids <= IdsWithStatus(rows, Started)
    ensures forall id | id in rows ::
      id in ids <==> rows[id].status == Started && rows[id].started < now - TWO_HOURS_MS
  {
    set id | id in rows && rows[id].status == Started && rows[id].started < now - TWO_HOURS_MS
  }

  /** How the count query came back: rows, an error object, or a thrown exception. */
  datatype QueryFault = NoFault | ReportsError | Throws

  datatype MonitorReply =
    | FailedCalls(failedCalls: nat)
    | QueryFailed
    | HandlerFailed
  {
    function StatusCode(): int {
      if FailedCalls? then 200 else 500
    }
  }

  /**
   * GET /api/monitor at instant `now`: the number of overdue calls, or a
   * 500 when the query reports an error or throws.
   */
  function MonitorGet(rows: Ledger, now: int, fault: QueryFault): (reply: MonitorReply)
    ensures reply.StatusCode() == 200 <==> fault == NoFault
    ensures fault == ReportsError ==> reply == QueryFailed
    ensures fault == Throws ==> reply == HandlerFailed
    ensures reply.FailedCalls? ==> reply.failedCalls == |Overdue(rows, now)|
    ensures reply.FailedCalls? ==> reply.failedCalls <= |IdsWithStatus(rows, Started)|
  {
    match fault
    case NoFault =>
      SubsetCardinality(Overdue(rows, now), IdsWithStatus(rows, Started));
      FailedCalls(|Overdue(rows, now)|)
    case ReportsError => QueryFailed
    case Throws => HandlerFailed
  }

  /**
   * At any instant an open call is in exactly one band: started within
   * the last hour, in the reconciler's window, or overdue.
   */
  lemma OpenCallBands(rows: Ledger, now: int, id: string)
    requires id in rows && rows[id].status == Started
    ensures var recent := rows[id].started > now - ONE_HOUR_MS;
      var swept := id in Candidates(rows, now);
      var overdue := id in Overdue(rows, now);
      (recent || swept || overdue) && !(recent && swept) && !(recent && overdue) && !(swept && overdue)
  {
    var c := rows[id];
    if c.started > now - ONE_HOUR_MS {
      assert !InSweepWindow(c, now);
    } else if c.started >= now - TWO_HOURS_MS {
      assert InSweepWindow(c, now);
    } else {
      assert !InSweepWindow(c, now);
    }
  }

  /** The sweep never touches an overdue call and never creates one: the monitor reads the same set after it. */
  lemma SweepKeepsOverdue(rows: Ledger, now: int, rowFails: set<string>)
    ensures Overdue(Sweep(rows, now, rowFails), now) == Overdue(rows, now)
  {
    var r := Sweep(rows, now, rowFails);
    forall id | id in rows
      ensures id in Overdue(r, now) <==> id in Overdue(rows, now)
    {
      if InSweepWindow(rows[id], now) && id !in rowFails {
        assert r[id].status == Ended;
        assert id !in Overdue(rows, now);
      }
    }
  }

  /** A call the sweep closed is never counted as overdue afterwards, at any later instant. */
  lemma SweptCallNeverOverdue(rows: Ledger, now: int, rowFails: set<string>, id: string, later: int)
    requires id in Candidates(rows, now) && id !in rowFails
    ensures id !in Overdue(Sweep(rows, now, rowFails), later)
  {
    assert InSweepWindow(rows[id], now);
    assert Sweep(rows, now, rowFails)[id].status == Ended;
  }

  /** Once overdue, an open call stays overdue as time goes on. */
  lemma OverdueGrows(rows: Ledger, now: int, later: int)
    requires now <= later
    ensures Overdue(rows, now) <= Overdue(rows, later)
    ensures |Overdue(rows, now)| <= |Overdue(rows, later)|
  {
    SubsetCardinality(Overdue(rows, now), Overdue(rows, later));
  }

  /**
   * The two-hour boundary: a call started exactly two hours ago is still
   * in the reconciler's window and not yet overdue; one millisecond
   * earlier it is overdue and out of the window.
   */
  lemma TwoHourBoundary(c: Call, now: int)
    requires c.status == Started
    ensures c.started == now - TWO_HOURS_MS ==>
      c.id in Candidates(map[c.id := c], now) && c.id !in Overdue(map[c.id := c], now)
    ensures c.started == now - TWO_HOURS_MS - 1 ==>
      c.id !in Candidates(map[c.id := c], now) && c.id in Overdue(map[c.id := c], now)
  {
  }
}
