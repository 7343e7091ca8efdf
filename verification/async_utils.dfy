/**
 * The generic retry helper: call an operation with attempt indices 0, 1,
 * 2, ... until it succeeds or the retry budget is spent, sleeping between
 * attempts according to a delay schedule whose last entry repeats.
 */
module AsyncUtils {
  import opened Wrappers

  /**
   * The pause after failed attempt `count`: `delay[min(count, len - 1)]`,
   * or zero when the list is empty and `len - 1` wrapped around (a build
   * without overflow checks) so that the lookup finds nothing.
   */
  function Pause(delay: seq<nat>, count: nat): (d: nat)
    ensures |delay| > 0 && count < |delay| ==> d == delay[count]
    ensures |delay| > 0 && count >= |delay| ==> d == delay[|delay| - 1]
    ensures |delay| == 0 ==> d == 0
  {
    if |delay| == 0 then 0
    else if count < |delay| - 1 then delay[count]
    else delay[|delay| - 1]
  }

  /** How a call of `retry` ends: with the operation's result, or in a panic. */
  datatype Outcome<T, E> = Returned(result: Result<T, E>) | Panicked

  /**
   * `retry(delay, retries, operation)`. The sleeps are returned rather than
   * awaited; `overflowChecks` says whether `delay.len() - 1` on an empty list
   * panics (checked arithmetic) or wraps.
   */
  method Retry<T, E>(delay: seq<nat>, retries: nat, operation: nat -> Result<T, E>, overflowChecks: bool)
    returns (outcome: Outcome<T, E>, calls: seq<nat>, sleeps: seq<nat>)
    ensures 1 <= |calls| <= retries + 1
    ensures forall i :: 0 <= i < |calls| ==> calls[i] == i
    ensures forall c :: 0 <= c < |calls| - 1 ==> operation(c).Err?
    ensures outcome.Returned? ==> outcome.result == operation(|calls| - 1)
    ensures outcome.Returned? && outcome.result.Err? ==> |calls| == retries + 1
    ensures outcome.Returned? ==> |sleeps| == |calls| - 1
    ensures outcome.Panicked? <==> overflowChecks && |delay| == 0 && retries > 0 && operation(0).Err?
    ensures outcome.Panicked? ==> |calls| == 1 && sleeps == []
    ensures forall c :: 0 <= c < |sleeps| ==> sleeps[c] == Pause(delay, c)
  {
    var count := 0;
    calls, sleeps := [], [];
    while true
      invariant count <= retries
      invariant |calls| == count && |sleeps| == count
      invariant forall i :: 0 <= i < count ==> calls[i] == i
      invariant forall c :: 0 <= c < count ==> operation(c).Err?
      invariant forall c :: 0 <= c < count ==> sleeps[c] == Pause(delay, c)
      invariant count > 0 ==> !(overflowChecks && |delay| == 0)
      decreases retries - count
    {
      var r := operation(count);
      calls := calls + [count];
      if r.Ok? || count >= retries {
        return Returned(r), calls, sleeps;
      }
      if overflowChecks && |delay| == 0 {
        return Panicked, calls, sleeps;
      }
      sleeps := sleeps + [Pause(delay, count)];
      count := count + 1;
    }
  }
}
