/**
 * Event ingestion: the POST handler that applies a call_started or
 * call_ended notification to the ledger. EventEffect is the handler's
 * meaning on ledger values; Post, CallStarted and CallEnded carry it out
 * against a CallTable.
 */
module Events {
  import opened Wrappers
  import opened Calls
  import Utils

  const CALL_STARTED: string := "call_started"
  const CALL_ENDED: string := "call_ended"
  /** SQLSTATE the store reports when a value is too long for its column. */
  const VALUE_TOO_LONG: string := "22001"

  /**
   * How the `ended` field reads: not a date at all (absent, or text the
   * Date constructor cannot read), a date that Date reads but the ISO-8601
   * parser rejects (null, non-ISO text), or an ISO-8601 instant in
   * milliseconds.
   */
  datatype Stamp = NotADate | NotIso | Instant(ms: int)

  /**
   * The request body. An absent field is None; `started` is the
   * already-parsed start instant, None when absent.
   */
  datatype EventRequest = EventRequest(
    callId: Option<string>,
    from: Option<string>,
    to: Option<string>,
    started: Option<int>,
    ended: Stamp,
    kind: string)

  /** What the store reports for the update of call_ended. */
  datatype UpdateOutcome = Applied | Rejected(code: string) | NoRowMatched

  /** The store's behaviour during one request, beyond what the ledger itself decides. */
  datatype StoreOutcomes = StoreOutcomes(insertFault: Option<string>, fetchFails: bool, update: UpdateOutcome)

  datatype EventResponse =
    | CallStartedLogged
    | CallEndedLogged(duration: string)
    | InvalidPhoneNumber
    | MissingRequiredFields
    | CallNotFound
    | CallAlreadyEnded
    | InvalidDateFormat
    | NegativeDuration
    | DurationTooLong(duration: string)
    | UpdateFailed
    | PhoneNumberTooLong
    | DuplicateCallId
    | InvalidType
    | InternalError(detail: string)
  {
    function StatusCode(): (code: int)
      ensures code in {200, 201, 400, 404, 409, 500}
      ensures code == 201 <==> this == CallStartedLogged
      ensures code == 200 <==> CallEndedLogged?
      ensures code == 404 <==> this == CallNotFound
      ensures code == 409 <==> this == DuplicateCallId
      ensures code == 500 <==> this == UpdateFailed || InternalError?
    {
      match this
      case CallStartedLogged => 201
      case CallEndedLogged(_) => 200
      case CallNotFound => 404
      case DuplicateCallId => 409
      case UpdateFailed | InternalError(_) => 500
      case _ => 400
    }
  }

  /** The catch block: a store error's code decides the response. */
  function StoreErrorResponse(code: string): (r: EventResponse)
    ensures r.StatusCode() == 409 <==> code == UNIQUE_VIOLATION
    ensures r.StatusCode() == 400 <==> code == VALUE_TOO_LONG
    ensures r.StatusCode() == 500 <==> code != UNIQUE_VIOLATION && code != VALUE_TOO_LONG
  {
    if code == VALUE_TOO_LONG then PhoneNumberTooLong
    else if code == UNIQUE_VIOLATION then DuplicateCallId
    else InternalError(code)
  }

  /** An absent field is read as the text "undefined", which the phone grammar rejects. */
  predicate PhoneOk(n: Option<string>) {
    n.Some? && Utils.IsValidPhoneNumber(n.value)
  }

  /** JavaScript truthiness of an optional string field. */
  predicate Present(s: Option<string>) {
    s.Some? && s.value != ""
  }

  /** The row call_ended fetches: none when the id is absent, the fetch fails or no row has it. */
  function Fetched(rows: Ledger, callId: Option<string>, fetchFails: bool): (row: Option<Call>)
    ensures row.Some? <==> callId.Some? && !fetchFails && callId.value in rows
    ensures row.Some? ==> row.value == rows[callId.value]
  {
    if callId.Some? && !fetchFails && callId.value in rows then Some(rows[callId.value]) else None
  }

  datatype EndCheck = Reject(response: EventResponse) | Accept(duration: int)

  /** The checks call_ended makes between the fetch and the update, in the handler's order. */
  function CheckEnd(row: Option<Call>, ended: Stamp): (r: EndCheck)
    ensures row.None? ==> r == Reject(CallNotFound)
    ensures row.Some? && row.value.status == Ended ==> r == Reject(CallAlreadyEnded)
    ensures row.Some? && row.value.status != Ended && !ended.Instant? ==> r == Reject(InvalidDateFormat)
    ensures r.Accept? <==>
      row.Some? && row.value.status != Ended && ended.Instant?
      && 0 <= ElapsedSeconds(row.value.started, ended.ms) <= MAX_DURATION
    ensures r.Accept? ==>
      && 0 <= r.duration <= MAX_DURATION
      && r.duration * 1000 <= ended.ms - row.value.started < r.duration * 1000 + 1000
    ensures row.Some? && row.value.status != Ended && ended.Instant? ==>
      var d := ElapsedSeconds(row.value.started, ended.ms);
      && (d < 0 ==> r == Reject(NegativeDuration))
      && (d > MAX_DURATION ==> r == Reject(DurationTooLong(Utils.FormattedDuration(d))))
    ensures r.Reject? ==> r.response.StatusCode() in {400, 404}
  {
    if row.None? then Reject(CallNotFound)
    else if row.value.status == Ended then Reject(CallAlreadyEnded)
    else if !ended.Instant? then Reject(InvalidDateFormat)
    else
      var d := ElapsedSeconds(row.value.started, ended.ms);
      if d < 0 then Reject(NegativeDuration)
      else if d > MAX_DURATION then Reject(DurationTooLong(Utils.FormattedDuration(d)))
      else Accept(d)
  }

  /** The message of the RangeError that formatting an invalid date throws. */
  const INVALID_TIME_VALUE: string := "Invalid time value"

  /**
   * The checks as the handler is written: the debug log placed before the
   * date checks formats the end instant, which throws when `ended` is not a
   * date, so that request ends in the catch block with a 500 and the
   * "Invalid date format" branch for it is never reached.
   */
  function CheckEndAsWritten(row: Option<Call>, ended: Stamp): (r: EndCheck)
    ensures r != CheckEnd(row, ended) <==> row.Some? && row.value.status != Ended && ended == NotADate
    ensures r != CheckEnd(row, ended) ==> r == Reject(InternalError(INVALID_TIME_VALUE))
  {
    if row.None? then Reject(CallNotFound)
    else if row.value.status == Ended then Reject(CallAlreadyEnded)
    else if ended == NotADate then Reject(InternalError(INVALID_TIME_VALUE))
    else CheckEnd(row, ended)
  }

  /**
   * The discrepancy on one input: an open call and an `ended` field that is
   * not a date get a 500 from the handler as written, where the date check
   * that follows the log answers 400.
   */
  lemma UnreadableEndIsServerError(c: Call)
    requires c.status == Started
    ensures CheckEndAsWritten(Some(c), NotADate).response.StatusCode() == 500
    ensures CheckEnd(Some(c), NotADate) == Reject(InvalidDateFormat)
    ensures CheckEnd(Some(c), NotADate).response.StatusCode() == 400
  {
  }

  /** A response together with the ledger it leaves behind. */
  datatype Effect = Effect(response: EventResponse, rows: Ledger)

  /** call_started: the required fields, then the insert. */
  function StartEffect(rows: Ledger, req: EventRequest, now: int, insertFault: Option<string>): (e: Effect)
    ensures e.response == CallStartedLogged <==>
      Present(req.callId) && Present(req.from) && Present(req.to) && insertFault.None? && req.callId.value !in rows
    ensures e.response == CallStartedLogged ==>
      var id := req.callId.value;
      && e.rows.Keys == rows.Keys + {id}
      && e.rows[id] == Call(id, req.from.value, req.to.value,
                            if req.started.Some? then req.started.value else now, None, None, Started)
      && forall other | other in rows :: e.rows[other] == rows[other]
    ensures e.response != CallStartedLogged ==> e.rows == rows
    ensures !Present(req.callId) || !Present(req.from) || !Present(req.to) ==> e.response == MissingRequiredFields
    ensures Present(req.callId) && Present(req.from) && Present(req.to) && insertFault.Some?
            ==> e.response == StoreErrorResponse(insertFault.value)
    ensures Present(req.callId) && Present(req.from) && Present(req.to) && insertFault.None? && req.callId.value in rows
            ==> e.response == DuplicateCallId
    ensures LedgerValid(rows) ==> LedgerValid(e.rows)
  {
    if !Present(req.callId) || !Present(req.from) || !Present(req.to) then
      Effect(MissingRequiredFields, rows)
    else
      var row := Call(req.callId.value, req.from.value, req.to.value,
                      if req.started.Some? then req.started.value else now, None, None, Started);
      match InsertError(rows, row, insertFault)
      case Some(code) => Effect(StoreErrorResponse(code), rows)
      case None => Effect(CallStartedLogged, rows[row.id := row])
  }

  /** call_ended: the fetch, the checks of CheckEnd, then the update. */
  function EndEffect(rows: Ledger, req: EventRequest, store: StoreOutcomes): (e: Effect)
    ensures e.response.CallEndedLogged? <==>
      && Fetched(rows, req.callId, store.fetchFails).Some?
      && CheckEnd(Fetched(rows, req.callId, store.fetchFails), req.ended).Accept?
      && store.update.Applied?
    ensures e.response.CallEndedLogged? ==>
      var id := req.callId.value;
      var d := ElapsedSeconds(rows[id].started, req.ended.ms);
      && id in rows && rows[id].status != Ended
      && 0 <= d <= MAX_DURATION
      && e.rows == rows[id := Closed(rows[id], req.ended.ms, d)]
      && e.response.duration == Utils.FormattedDuration(d)
    ensures !e.response.CallEndedLogged? ==> e.rows == rows
    ensures CheckEnd(Fetched(rows, req.callId, store.fetchFails), req.ended).Reject?
            ==> e.response == CheckEnd(Fetched(rows, req.callId, store.fetchFails), req.ended).response
    ensures store.update.Rejected? && CheckEnd(Fetched(rows, req.callId, store.fetchFails), req.ended).Accept?
            ==> e.response == StoreErrorResponse(store.update.code)
    ensures store.update.NoRowMatched? && CheckEnd(Fetched(rows, req.callId, store.fetchFails), req.ended).Accept?
            ==> e.response == UpdateFailed
    ensures e.rows.Keys == rows.Keys
    ensures forall id | id in rows && rows[id].status == Ended :: e.rows[id] == rows[id]
    ensures LedgerValid(rows) ==> LedgerValid(e.rows)
  {
    var row := Fetched(rows, req.callId, store.fetchFails);
    match CheckEnd(row, req.ended)
    case Reject(r) => Effect(r, rows)
    case Accept(d) =>
      var id := req.callId.value;
      match store.update
      case Rejected(code) => Effect(StoreErrorResponse(code), rows)
      case NoRowMatched => Effect(UpdateFailed, rows)
      case Applied => Effect(CallEndedLogged(Utils.FormattedDuration(d)), rows[id := Closed(rows[id], req.ended.ms, d)])
  }

  /**
   * The whole handler. The phone grammar is checked first, whatever the
   * event type; then the type selects call_started, call_ended or a 400.
   */
  function EventEffect(rows: Ledger, req: EventRequest, now: int, store: StoreOutcomes): (e: Effect)
    ensures !PhoneOk(req.from) || !PhoneOk(req.to) ==> e == Effect(InvalidPhoneNumber, rows)
    ensures PhoneOk(req.from) && PhoneOk(req.to) && req.kind != CALL_STARTED && req.kind != CALL_ENDED
            ==> e == Effect(InvalidType, rows)
    ensures PhoneOk(req.from) && PhoneOk(req.to) && req.kind == CALL_STARTED
            ==> (e.response == MissingRequiredFields <==> !Present(req.callId))
    ensures e.response.StatusCode() != 200 && e.response.StatusCode() != 201 ==> e.rows == rows
    ensures rows.Keys <= e.rows.Keys && |e.rows| <= |rows| + 1
    ensures forall id | id in rows && rows[id].status == Ended :: id in e.rows && e.rows[id] == rows[id]
    ensures LedgerValid(rows) ==> LedgerValid(e.rows)
  {
    if !PhoneOk(req.from) || !PhoneOk(req.to) then Effect(InvalidPhoneNumber, rows)
    else if req.kind == CALL_STARTED then StartEffect(rows, req, now, store.insertFault)
    else if req.kind == CALL_ENDED then EndEffect(rows, req, store)
    else Effect(InvalidType, rows)
  }

  /** call_started through the table. */
  method CallStarted(table: CallTable, req: EventRequest, now: int, insertFault: Option<string>)
    returns (response: EventResponse)
    modifies table
    ensures Effect(response, table.rows) == StartEffect(old(table.rows), req, now, insertFault)
  {
    if !Present(req.callId) || !Present(req.from) || !Present(req.to) {
      return MissingRequiredFields;
    }
    var started := if req.started.Some? then req.started.value else now;
    var error := table.Insert(Call(req.callId.value, req.from.value, req.to.value, started, None, None, Started), insertFault);
    if error.Some? {
      return StoreErrorResponse(error.value);
    }
    response := CallStartedLogged;
  }

  /** call_ended through the table. */
  method CallEnded(table: CallTable, req: EventRequest, store: StoreOutcomes)
    returns (response: EventResponse)
    modifies table
    ensures Effect(response, table.rows) == EndEffect(old(table.rows), req, store)
  {
    var row: Option<Call> := None;
    if req.callId.Some? && !store.fetchFails {
      row := table.Find(req.callId.value);
    }
    if row.None? {
      return CallNotFound;
    }
    if row.value.status == Ended {
      return CallAlreadyEnded;
    }
    if !req.ended.Instant? {
      return InvalidDateFormat;
    }
    var endedMs := req.ended.ms;
    var durationInSeconds := ElapsedSeconds(row.value.started, endedMs);
    if durationInSeconds < 0 {
      return NegativeDuration;
    }
    if durationInSeconds > MAX_DURATION {
      var text := Utils.FormatDuration(durationInSeconds);
      return DurationTooLong(text);
    }
    match store.update {
      case Rejected(code) =>
        return StoreErrorResponse(code);
      case NoRowMatched =>
        return UpdateFailed;
      case Applied =>
        table.Close(req.callId.value, endedMs, durationInSeconds);
        var text := Utils.FormatDuration(durationInSeconds);
        response := CallEndedLogged(text);
    }
  }

  /** The POST handler. */
  method Post(table: CallTable, req: EventRequest, now: int, store: StoreOutcomes)
    returns (response: EventResponse)
    modifies table
    ensures Effect(response, table.rows) == EventEffect(old(table.rows), req, now, store)
  {
    if !PhoneOk(req.from) || !PhoneOk(req.to) {
      return InvalidPhoneNumber;
    }
    if req.kind == CALL_STARTED {
      response := CallStarted(table, req, now, store.insertFault);
    } else if req.kind == CALL_ENDED {
      response := CallEnded(table, req, store);
    } else {
      response := InvalidType;
    }
  }

  /** A call_started event whose phones, fields and store are all fine. */
  predicate CleanStart(req: EventRequest, store: StoreOutcomes) {
    && PhoneOk(req.from) && PhoneOk(req.to) && req.kind == CALL_STARTED
    && Present(req.callId) && Present(req.from) && Present(req.to)
    && store.insertFault.None?
  }

  /**
   * Once a call_started for an id has succeeded, every later call_started
   * for that id, whatever else it carries, gets 409 and changes nothing.
   */
  lemma SecondStartIsDuplicate(rows: Ledger, first: EventRequest, now1: int, s1: StoreOutcomes,
                               second: EventRequest, now2: int, s2: StoreOutcomes)
    requires EventEffect(rows, first, now1, s1).response == CallStartedLogged
    requires CleanStart(second, s2) && second.callId == first.callId
    ensures var after := EventEffect(rows, first, now1, s1).rows;
      EventEffect(after, second, now2, s2) == Effect(DuplicateCallId, after)
  {
    assert first.kind == CALL_STARTED;
  }

  /**
   * Once a call_ended for an id has succeeded, every later call_ended for
   * that id that reaches the row gets 400 "already ended" and leaves the
   * recorded end and duration as they are.
   */
  lemma SecondEndIsRejected(rows: Ledger, first: EventRequest, s1: StoreOutcomes, now1: int,
                            second: EventRequest, s2: StoreOutcomes, now2: int)
    requires EventEffect(rows, first, now1, s1).response.CallEndedLogged?
    requires PhoneOk(second.from) && PhoneOk(second.to) && second.kind == CALL_ENDED
    requires second.callId == first.callId && !s2.fetchFails
    ensures var after := EventEffect(rows, first, now1, s1).rows;
      EventEffect(after, second, now2, s2) == Effect(CallAlreadyEnded, after)
  {
    assert first.kind == CALL_ENDED;
    var after := EventEffect(rows, first, now1, s1).rows;
    assert after[first.callId.value].status == Ended;
  }

  /**
   * The one-hour ceiling is inclusive: an end up to 3600.999 s after the
   * start is recorded, one a full second later is refused and the call
   * stays open.
   */
  lemma OneHourBoundary(c: Call)
    requires c.status == Started
    ensures CheckEnd(Some(c), Instant(c.started + 3_600_999)) == Accept(3600)
    ensures CheckEnd(Some(c), Instant(c.started + 3_601_000)) == Reject(DurationTooLong(Utils.FormattedDuration(3601)))
  {
  }

  /** An end before the start is refused as a negative duration, whatever the stored row. */
  lemma EndBeforeStartIsNegative(c: Call, endedMs: int)
    requires c.status != Ended && endedMs < c.started
    ensures CheckEnd(Some(c), Instant(endedMs)) == Reject(NegativeDuration)
  {
  }
}
