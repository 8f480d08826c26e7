/**
 * The `calls` ledger: one row per telephone call, keyed by the
 * caller-supplied id, and the storage collaborator that holds it.
 * Timestamps are UTC instants in milliseconds; durations are seconds.
 */
module Calls {
  import opened Wrappers

  /** Longest call, in seconds, that a call_ended event may record. */
  const MAX_DURATION: int := 3600
  const ONE_HOUR_MS: int := 60 * 60 * 1000
  const TWO_HOURS_MS: int := 2 * 60 * 60 * 1000
  /** SQLSTATE the store reports when an insert collides with an existing id. */
  const UNIQUE_VIOLATION: string := "23505"

  datatype Status = Started | Ended | Failed

  datatype Call = Call(
    id: string,
    fromNumber: string,
    toNumber: string,
    started: int,
    ended: Option<int>,
    duration: Option<int>,
    status: Status)

  type Ledger = map<string, Call>

  /** Whole seconds from `startMs` to `endMs`, rounded down (negative when the end is earlier). */
  function ElapsedSeconds(startMs: int, endMs: int): (secs: int)
    ensures secs * 1000 <= endMs - startMs < secs * 1000 + 1000
    ensures startMs <= endMs <==> secs >= 0
  {
    (endMs - startMs) / 1000
  }

  /** The row after the update {status: ended, ended, duration}; every other column is kept. */
  function Closed(c: Call, endedMs: int, duration: int): (d: Call)
    ensures d.status == Ended && d.ended == Some(endedMs) && d.duration == Some(duration)
    ensures d.id == c.id && d.fromNumber == c.fromNumber && d.toNumber == c.toNumber && d.started == c.started
  {
    c.(ended := Some(endedMs), duration := Some(duration), status := Ended)
  }

  /**
   * A row as this subsystem writes it: stored under its own id; it has an
   * end time and a duration exactly when it is ended; the duration is the
   * whole seconds between start and end and lies within two hours.
   */
  ghost predicate WellFormed(id: string, c: Call) {
    && c.id == id
    && (c.status == Ended <==> c.duration.Some?)
    && (c.ended.Some? <==> c.duration.Some?)
    && (c.duration.Some? ==>
          c.duration.value == ElapsedSeconds(c.started, c.ended.value)
          && 0 <= c.duration.value <= 2 * MAX_DURATION)
  }

  ghost predicate LedgerValid(rows: Ledger) {
    forall id | id in rows :: WellFormed(id, rows[id])
  }

  /** The ids of the rows in status `st`. */
  function IdsWithStatus(rows: Ledger, st: Status): (ids: set<string>)
    ensures ids <= rows.Keys
    ensures forall id | id in rows :: id in ids <==> rows[id].status == st
  {
    set id | id in rows && rows[id].status == st
  }

  /** Failed and open calls are disjoint groups of the ledger. */
  lemma StatusCountsBounded(rows: Ledger)
    ensures |IdsWithStatus(rows, Failed)| + |IdsWithStatus(rows, Started)| <= |rows|
  {
    var f, s := IdsWithStatus(rows, Failed), IdsWithStatus(rows, Started);
    assert f !! s;
    assert |f + s| == |f| + |s|;
    SubsetCardinality(f + s, rows.Keys);
  }

  lemma {:induction false} SubsetCardinality<T>(a: set<T>, b: set<T>)
    requires a <= b
    ensures |a| <= |b|
  {
    if a != {} {
      var x :| x in a;
      SubsetCardinality(a - {x}, b - {x});
    }
  }

  /** The error an insert of `row` reports: an injected store fault, else a key collision. */
  function InsertError(rows: Ledger, row: Call, fault: Option<string>): (error: Option<string>)
    ensures error.None? <==> fault.None? && row.id !in rows
    ensures fault.Some? ==> error == fault
    ensures fault.None? && row.id in rows ==> error == Some(UNIQUE_VIOLATION)
  {
    if fault.Some? then fault
    else if row.id in rows then Some(UNIQUE_VIOLATION)
    else None
  }

  /**
   * The storage collaborator: the `calls` table and the three operations the
   * core issues against it. Faults the store may report beyond key
   * collisions are passed in by the caller.
   */
  class CallTable {
    var rows: Ledger

    constructor (initial: Ledger)
      ensures rows == initial
    {
      rows := initial;
    }

    /** insert: adds the row unless the store reports an error; a collision never overwrites. */
    method Insert(row: Call, fault: Option<string>) returns (error: Option<string>)
      modifies this
      ensures error == InsertError(old(rows), row, fault)
      ensures rows == if error.None? then old(rows)[row.id := row] else old(rows)
    {
      error := InsertError(rows, row, fault);
      if error.None? {
        rows := rows[row.id := row];
      }
    }

    /** select ... eq('id', id).single(): the row, or nothing when no row has that id. */
    method Find(id: string) returns (found: Option<Call>)
      ensures found.Some? <==> id in rows
      ensures found.Some? ==> found.value == rows[id]
    {
      found := if id in rows then Some(rows[id]) else None;
    }

    /** update {status: ended, ended, duration} eq('id', id): closes that row, if present, and nothing else. */
    method Close(id: string, endedMs: int, duration: int)
      modifies this
      ensures rows == if id in old(rows) then old(rows)[id := Closed(old(rows)[id], endedMs, duration)] else old(rows)
    {
      if id in rows {
        rows := rows[id := Closed(rows[id], endedMs, duration)];
      }
    }
  }
}
