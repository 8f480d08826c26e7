/**
 * The retry combinator: call an operation up to `maxRetries` times,
 * waiting `delay * 2^attempt` after each failed attempt but the last.
 * The operation is given as the outcome of each of its invocations,
 * and the waits are returned instead of slept.
 */
module Retry {
  const DEFAULT_MAX_RETRIES: int := 3
  const DEFAULT_DELAY_MS: int := 1000

  /** What one invocation of the operation did: returned a value or threw. */
  datatype Attempt<+T, +E> = Returned(value: T) | Threw(error: E)

  /** The combinator's own result: a value, the last attempt's error, or the generic error. */
  datatype RetryOutcome<+T, +E> =
    | Succeeded(value: T)
    | Rethrew(error: E)
    | AllRetryAttemptsFailed

  function Pow2(k: nat): (p: nat)
    ensures p >= 1
  {
    if k == 0 then 1 else 2 * Pow2(k - 1)
  }

  /**
   * `operation(k)` is the outcome of the k-th invocation (counting from 0).
   * Returns the combinator's outcome, how many times the operation was
   * invoked, and the successive waits in milliseconds.
   */
  method WithRetry<T, E>(operation: nat -> Attempt<T, E>, maxRetries: int, delay: int)
    returns (outcome: RetryOutcome<T, E>, calls: nat, waits: seq<int>)
    ensures calls <= if maxRetries > 0 then maxRetries else 0
    ensures forall k | 0 <= k < calls - 1 :: operation(k).Threw?
    ensures outcome.Succeeded? ==> calls > 0 && operation(calls - 1) == Returned(outcome.value)
    ensures outcome.Rethrew? ==> calls == maxRetries && calls > 0 && operation(calls - 1) == Threw(outcome.error)
    ensures outcome.AllRetryAttemptsFailed? <==> maxRetries <= 0
    ensures outcome.AllRetryAttemptsFailed? ==> calls == 0
    ensures |waits| == if calls > 0 then calls - 1 else 0
    ensures forall k | 0 <= k < |waits| :: waits[k] == delay * Pow2(k)
  {
    waits := [];
    var attempt := 0;
    while attempt < maxRetries
      invariant 0 <= attempt
      invariant maxRetries > 0 ==> attempt < maxRetries
      invariant maxRetries <= 0 ==> attempt == 0
      invariant forall k | 0 <= k < attempt :: operation(k).Threw?
      invariant |waits| == attempt
      invariant forall k | 0 <= k < attempt :: waits[k] == delay * Pow2(k)
    {
      match operation(attempt) {
        case Returned(v) =>
          return Succeeded(v), attempt + 1, waits;
        case Threw(e) =>
          if attempt == maxRetries - 1 {
            return Rethrew(e), attempt + 1, waits;
          }
          waits := waits + [delay * Pow2(attempt)];
      }
      attempt := attempt + 1;
    }
    return AllRetryAttemptsFailed, 0, [];
  }
}
