/**
 * The metrics endpoint: four read queries against the ledger, folded into
 * one snapshot, the whole batch retried with backoff. JavaScript numbers
 * are modelled as integers for counts and durations and as reals for the
 * two quotients.
 */
module Metrics {
  import opened Wrappers
  import opened Calls
  import opened Retry

  const INCOMPLETE_DATA: string := "Failed to fetch complete metrics data"

  /** A `count: 'exact', head: true` query result: the count (possibly null) and the error object, which is never read. */
  datatype CountResult = CountResult(count: Option<nat>, error: Option<string>)

  /** The `select('duration')` result: the rows' duration cells (possibly a null array) and the error object. */
  datatype DurationsResult = DurationsResult(data: Option<seq<Option<int>>>, error: Option<string>)

  /**
   * One run of the four concurrent queries: either the combined promise
   * rejected, or every query settled to a result that may be missing.
   */
  datatype QueryBatch =
    | Rejected(reason: string)
    | Settled(total: Option<CountResult>, failed: Option<CountResult>,
              pending: Option<CountResult>, durations: Option<DurationsResult>)

  datatype MetricsResponse = MetricsResponse(
    totalCalls: nat,
    failedCalls: nat,
    pendingCalls: nat,
    averageDuration: real,
    maxDuration: int,
    minDuration: int,
    errorRate: real)

  /** How many cells hold `x`. */
  function Occurrences(cells: seq<Option<int>>, x: Option<int>): nat {
    if cells == [] then 0 else (if cells[0] == x then 1 else 0) + Occurrences(cells[1..], x)
  }

  /** The numeric durations, in order, with the nulls dropped: only the nulls are lost. */
  function ValidDurations(cells: seq<Option<int>>): (ds: seq<int>)
    ensures |ds| == |cells| - Occurrences(cells, None)
    ensures forall d :: d in ds <==> Some(d) in cells
  {
    if cells == [] then []
    else
      var rest := ValidDurations(cells[1..]);
      assert cells == [cells[0]] + cells[1..];
      if cells[0].Some? then [cells[0].value] + rest else rest
  }

  /** Each number occurs among the durations exactly as often as the cells hold it. */
  lemma {:induction false} ValidDurationsCounts(cells: seq<Option<int>>)
    ensures forall d :: multiset(ValidDurations(cells))[d] == Occurrences(cells, Some(d))
  {
    if cells != [] {
      ValidDurationsCounts(cells[1..]);
      var rest := ValidDurations(cells[1..]);
      if cells[0].Some? {
        assert ValidDurations(cells) == [cells[0].value] + rest;
        assert multiset([cells[0].value] + rest) == multiset{cells[0].value} + multiset(rest);
      }
    }
  }

  /** Dropping the nulls keeps the order: the durations of two columns laid end to end are laid end to end. */
  lemma {:induction false} ValidDurationsAppend(a: seq<Option<int>>, b: seq<Option<int>>)
    ensures ValidDurations(a + b) == ValidDurations(a) + ValidDurations(b)
  {
    if a != [] {
      assert (a + b)[1..] == a[1..] + b;
      ValidDurationsAppend(a[1..], b);
    } else {
      assert a + b == b;
    }
  }

  function Sum(ds: seq<int>): int {
    if ds == [] then 0 else ds[0] + Sum(ds[1..])
  }

  /** Math.max over a non-empty list: an element no smaller than any other. */
  function MaxOf(ds: seq<int>): (m: int)
    requires |ds| > 0
    ensures m in ds
    ensures forall d | d in ds :: d <= m
  {
    if |ds| == 1 then ds[0]
    else
      var rest := MaxOf(ds[1..]);
      assert forall d | d in ds :: d == ds[0] || d in ds[1..];
      if ds[0] >= rest then ds[0] else rest
  }

  /** Math.min over a non-empty list: an element no larger than any other. */
  function MinOf(ds: seq<int>): (m: int)
    requires |ds| > 0
    ensures m in ds
    ensures forall d | d in ds :: m <= d
  {
    if |ds| == 1 then ds[0]
    else
      var rest := MinOf(ds[1..]);
      assert forall d | d in ds :: d == ds[0] || d in ds[1..];
      if ds[0] <= rest then ds[0] else rest
  }

  /** `n` copies of `x` added up. */
  function Scale(x: int, n: nat): int {
    if n == 0 then 0 else Scale(x, n - 1) + x
  }

  /** One more copy of `a`: a * m == a * n + a when m is n + 1. */
  lemma MultiplySuccessor(a: real, n: real, m: real)
    requires m == n + 1.0
    ensures a * m == a * n + a
  {
  }

  /** Adding up `n` copies of `x` is multiplying by `n`. */
  lemma {:induction false} ScaleIsProduct(x: int, n: nat)
    ensures Scale(x, n) as real == x as real * n as real
  {
    if n > 0 {
      ScaleIsProduct(x, n - 1);
      MultiplySuccessor(x as real, (n - 1) as real, n as real);
    }
  }

  /** A sum of `|ds|` values, each between `lo` and `hi`, lies between `|ds|` copies of `lo` and `|ds|` copies of `hi`. */
  lemma {:induction false} SumBounds(ds: seq<int>, lo: int, hi: int)
    requires forall d | d in ds :: lo <= d <= hi
    ensures Scale(lo, |ds|) <= Sum(ds) <= Scale(hi, |ds|)
  {
    if ds != [] {
      assert ds[0] in ds && forall d | d in ds[1..] :: d in ds;
      SumBounds(ds[1..], lo, hi);
    }
  }

  /** failedCount / totalCount * 100, or 0 when there are no calls. */
  function ErrorRate(failed: nat, total: nat): (rate: real)
    ensures total == 0 ==> rate == 0.0
    ensures 0.0 <= rate
    ensures rate == 0.0 <==> failed == 0 || total == 0
    ensures failed <= total ==> rate <= 100.0
    ensures total > 0 ==> rate * total as real == failed as real * 100.0
  {
    if total > 0 then failed as real / total as real * 100.0 else 0.0
  }

  /** The mean of the durations, or 0 when there are none. */
  function AverageDuration(ds: seq<int>): (avg: real)
    ensures |ds| == 0 ==> avg == 0.0
    ensures |ds| > 0 ==> avg * |ds| as real == Sum(ds) as real
  {
    if |ds| > 0 then Sum(ds) as real / |ds| as real else 0.0
  }

  /** A quotient by a positive number is bounded by the bounds on the dividend, scaled down. */
  lemma QuotientBounds(s: real, n: real, lo: real, hi: real)
    requires n > 0.0 && lo * n <= s <= hi * n
    ensures lo <= s / n <= hi
  {
    var q := s / n;
    assert q * n == s;
  }

  /** The mean of a non-empty list lies within any bounds that hold for each of its elements. */
  lemma AverageWithinBounds(ds: seq<int>, lo: int, hi: int)
    requires |ds| > 0
    requires forall d | d in ds :: lo <= d <= hi
    ensures lo as real <= AverageDuration(ds) <= hi as real
  {
    SumBounds(ds, lo, hi);
    ScaleIsProduct(lo, |ds|);
    ScaleIsProduct(hi, |ds|);
    QuotientBounds(Sum(ds) as real, |ds| as real, lo as real, hi as real);
  }

  /** The mean of a non-empty list lies between its minimum and its maximum. */
  lemma AverageBetweenMinAndMax(ds: seq<int>)
    requires |ds| > 0
    ensures MinOf(ds) as real <= AverageDuration(ds) <= MaxOf(ds) as real
  {
    AverageWithinBounds(ds, MinOf(ds), MaxOf(ds));
  }

  /**
   * One attempt of the retried operation: throws when the batch rejects or
   * any result is missing; otherwise counts default to 0 and the duration
   * statistics to 0 over an empty list.
   */
  function ComputeMetrics(batch: QueryBatch): (attempt: Attempt<MetricsResponse, string>)
    ensures batch.Rejected? ==> attempt == Threw(batch.reason)
    ensures attempt.Returned? <==>
      batch.Settled? && batch.total.Some? && batch.failed.Some? && batch.pending.Some? && batch.durations.Some?
    ensures batch.Settled? && attempt.Threw? ==> attempt.error == INCOMPLETE_DATA
    ensures attempt.Returned? ==>
      var m := attempt.value;
      && m.totalCalls == CountOrZero(batch.total.value)
      && m.failedCalls == CountOrZero(batch.failed.value)
      && m.pendingCalls == CountOrZero(batch.pending.value)
      && m.errorRate == ErrorRate(m.failedCalls, m.totalCalls)
  {
    match batch
    case Rejected(reason) => Threw(reason)
    case Settled(total, failed, pending, durations) =>
      if total.None? || failed.None? || pending.None? || durations.None? then Threw(INCOMPLETE_DATA)
      else
        var ds := ValidDurations(if durations.value.data.Some? then durations.value.data.value else []);
        var t, f, p := CountOrZero(total.value), CountOrZero(failed.value), CountOrZero(pending.value);
        Returned(MetricsResponse(
          totalCalls := t,
          failedCalls := f,
          pendingCalls := p,
          averageDuration := AverageDuration(ds),
          maxDuration := if |ds| > 0 then MaxOf(ds) else 0,
          minDuration := if |ds| > 0 then MinOf(ds) else 0,
          errorRate := ErrorRate(f, t)))
  }

  /** `result.count || 0`. */
  function CountOrZero(r: CountResult): (n: nat)
    ensures r.count.Some? ==> n == r.count.value
    ensures r.count.None? ==> n == 0
  {
    if r.count.Some? then r.count.value else 0
  }

  /** The duration statistics of a returned snapshot are those of the numeric cells, with 0 for an empty list. */
  lemma DurationStatistics(batch: QueryBatch)
    requires ComputeMetrics(batch).Returned?
    ensures var m := ComputeMetrics(batch).value;
      var cells := if batch.durations.value.data.Some? then batch.durations.value.data.value else [];
      var ds := ValidDurations(cells);
      && (ds == [] ==> m.averageDuration == 0.0 && m.maxDuration == 0 && m.minDuration == 0)
      && (ds != [] ==>
            && Some(m.maxDuration) in cells && Some(m.minDuration) in cells
            && (forall d | Some(d) in cells :: m.minDuration <= d <= m.maxDuration)
            && m.averageDuration == Sum(ds) as real / |ds| as real
            && m.minDuration as real <= m.averageDuration <= m.maxDuration as real)
  {
    var m := ComputeMetrics(batch).value;
    var cells := if batch.durations.value.data.Some? then batch.durations.value.data.value else [];
    var ds := ValidDurations(cells);
    assert m.averageDuration == AverageDuration(ds);
    if ds != [] {
      assert m.maxDuration == MaxOf(ds) && m.minDuration == MinOf(ds);
      AverageBetweenMinAndMax(ds);
    }
  }

  /**
   * Results that are present but carry error objects and null payloads are
   * not a failure: the snapshot comes back filled with zeros.
   */
  lemma ErroredResultsZeroFill(e: string)
    ensures var bad := Some(CountResult(None, Some(e)));
      ComputeMetrics(Settled(bad, bad, bad, Some(DurationsResult(None, Some(e))))) ==
        Returned(MetricsResponse(0, 0, 0, 0.0, 0, 0, 0.0))
  {
  }

  /** The batch a healthy store returns for `rows`; `cells` is the duration column it selected, in its own order. */
  function StoreBatch(rows: Ledger, cells: seq<Option<int>>): QueryBatch {
    Settled(
      Some(CountResult(Some(|rows|), None)),
      Some(CountResult(Some(|IdsWithStatus(rows, Failed)|), None)),
      Some(CountResult(Some(|IdsWithStatus(rows, Started)|), None)),
      Some(DurationsResult(Some(cells), None)))
  }

  /**
   * Over a well-formed ledger, the snapshot counts all rows, the failed
   * ones and the open ones; the error rate is a percentage; and the
   * duration statistics lie within the two hours any recorded duration does.
   */
  lemma MetricsOfLedger(rows: Ledger, cells: seq<Option<int>>)
    requires LedgerValid(rows)
    requires forall i | 0 <= i < |cells| :: exists id | id in rows :: rows[id].duration == cells[i]
    ensures ComputeMetrics(StoreBatch(rows, cells)).Returned?
    ensures var m := ComputeMetrics(StoreBatch(rows, cells)).value;
      && m.totalCalls == |rows|
      && m.failedCalls == |IdsWithStatus(rows, Failed)|
      && m.pendingCalls == |IdsWithStatus(rows, Started)|
      && m.failedCalls + m.pendingCalls <= m.totalCalls
      && 0.0 <= m.errorRate <= 100.0
      && 0 <= m.minDuration <= m.maxDuration <= 2 * MAX_DURATION
  {
    var m := ComputeMetrics(StoreBatch(rows, cells)).value;
    StatusCountsBounded(rows);
    var ds := ValidDurations(cells);
    if ds != [] {
      forall d | d in ds
        ensures 0 <= d <= 2 * MAX_DURATION
      {
        var i :| 0 <= i < |cells| && cells[i] == Some(d);
        var id :| id in rows && rows[id].duration == cells[i];
        assert WellFormed(id, rows[id]);
      }
      assert MinOf(ds) in ds && MaxOf(ds) in ds;
    }
  }

  /** The worked example's duration column: one null among three numbers. */
  lemma ExampleDurations()
    ensures ValidDurations([Some(10), None, Some(20), Some(30)]) == [10, 20, 30]
  {
    var cells := [Some(10), None, Some(20), Some(30)];
    assert cells[1..][1..][1..] == [Some(30)] && [Some(30)][1..] == [];
    assert ValidDurations([Some(30)]) == [30];
    assert cells[1..][1..] == [Some(20), Some(30)];
    assert ValidDurations([Some(20), Some(30)]) == [20, 30];
    assert cells[1..] == [None, Some(20), Some(30)];
    assert ValidDurations([None, Some(20), Some(30)]) == [20, 30];
  }

  /** The worked example's statistics: mean 20, maximum 30, minimum 10. */
  lemma ExampleStatistics()
    ensures AverageDuration([10, 20, 30]) == 20.0
    ensures MaxOf([10, 20, 30]) == 30 && MinOf([10, 20, 30]) == 10
  {
    var ds := [10, 20, 30];
    assert ds[1..] == [20, 30] && ds[1..][1..] == [30];
    assert Sum(ds) == 60;
  }

  /** One failed call of four is an error rate of 25. */
  lemma ExampleErrorRate()
    ensures ErrorRate(1, 4) == 25.0
  {
    assert 1.0 / 4.0 == 0.25;
  }

  /** The worked example: durations 10, 20 and 30, one failed call of four. */
  lemma MetricsExample()
    ensures var cells := [Some(10), None, Some(20), Some(30)];
      var batch := Settled(Some(CountResult(Some(4), None)), Some(CountResult(Some(1), None)),
                           Some(CountResult(Some(0), None)), Some(DurationsResult(Some(cells), None)));
      ComputeMetrics(batch) == Returned(MetricsResponse(4, 1, 0, 20.0, 30, 10, 25.0))
  {
    ExampleDurations();
    ExampleStatistics();
    ExampleErrorRate();
  }

  /** The empty ledger: every figure is 0. */
  lemma EmptyLedgerMetrics()
    ensures ComputeMetrics(StoreBatch(map[], [])) == Returned(MetricsResponse(0, 0, 0, 0.0, 0, 0, 0.0))
  {
    assert IdsWithStatus(map[], Failed) == {};
    assert IdsWithStatus(map[], Started) == {};
  }

  datatype MetricsReply =
    | Unauthorized
    | Snapshot(metrics: MetricsResponse)
    | MetricsFailed(message: string)
  {
    function StatusCode(): int {
      match this
      case Unauthorized => 401
      case Snapshot(_) => 200
      case MetricsFailed(_) => 500
    }
  }

  /**
   * GET /api/metrics: 401 without a session; otherwise ComputeMetrics under
   * withRetry with its defaults (three attempts, waits of 1000 and 2000 ms),
   * `batches(k)` being what the k-th attempt's queries return. A failure
   * surfaces the last attempt's error message with a 500.
   */
  method GetMetrics(hasSession: bool, batches: nat -> QueryBatch)
    returns (reply: MetricsReply, attempts: nat, waits: seq<int>)
    ensures !hasSession ==> reply == Unauthorized && attempts == 0 && waits == []
    ensures hasSession ==> 1 <= attempts <= DEFAULT_MAX_RETRIES
    ensures forall k | 0 <= k < attempts - 1 :: ComputeMetrics(batches(k)).Threw?
    ensures reply.Snapshot? ==> ComputeMetrics(batches(attempts - 1)) == Returned(reply.metrics)
    ensures reply.Snapshot? <==>
      hasSession && exists k | 0 <= k < DEFAULT_MAX_RETRIES :: ComputeMetrics(batches(k)).Returned?
    ensures reply.MetricsFailed? ==>
      && attempts == DEFAULT_MAX_RETRIES
      && ComputeMetrics(batches(attempts - 1)) == Threw(reply.message)
      && waits == [1000, 2000]
  {
    if !hasSession {
      return Unauthorized, 0, [];
    }
    var operation := (k: nat) => ComputeMetrics(batches(k));
    var outcome;
    outcome, attempts, waits := WithRetry(operation, DEFAULT_MAX_RETRIES, DEFAULT_DELAY_MS);
    assert forall k: nat :: operation(k) == ComputeMetrics(batches(k));
    match outcome
    case Succeeded(m) =>
      reply := Snapshot(m);
    case Rethrew(e) =>
      reply := MetricsFailed(e);
      assert Pow2(1) == 2;
    case AllRetryAttemptsFailed =>
      reply := MetricsFailed("All retry attempts failed");
  }
}
