/** The `retry_action(max_retries, delay)` decorator of src/crawler.py: call the
    wrapped action up to `max_retries` times, pausing `delay` seconds after each
    failure, and re-raise the last failure when every call failed. The action's
    successive outcomes are given as a function of the call's index; the pauses
    are counted, not slept. */
module Retry {
  import opened Wrappers

  /** What one call of the wrapped action does. */
  datatype Attempt<T, E> = Returns(value: T) | Raises(error: E)

  /** What the wrapper does: return a value, or raise. `Reraised(None)` is
      `raise None` after zero attempts, which Python turns into a `TypeError`. */
  datatype Retried<T, E> = Returned(value: T) | Reraised(last: Option<E>)

  datatype RetryRun<T, E> = RetryRun(result: Retried<T, E>, calls: nat, pauses: nat)

  /** The decorator's defaults, as used on `search_period` and `crawl_period_pages`. */
  const MaxRetries: nat := 3
  const Delay: nat := 2

  /** The rest of the wrapper from attempt `k`, the last failure so far being `last`. */
  function RetryFrom<T, E>(call: nat -> Attempt<T, E>, maxRetries: nat, k: nat, last: Option<E>): RetryRun<T, E>
    requires k <= maxRetries
    decreases maxRetries - k
  {
    if k == maxRetries then RetryRun(Reraised(last), k, k)
    else
      match call(k)
      case Returns(v) => RetryRun(Returned(v), k + 1, k)
      case Raises(e) => RetryFrom(call, maxRetries, k + 1, Some(e))
  }

  function RetrySpec<T, E>(call: nat -> Attempt<T, E>, maxRetries: nat): RetryRun<T, E> {
    RetryFrom(call, maxRetries, 0, None)
  }

  /** The wrapper: `for attempt in range(max_retries)`, returning on the first call
      that does not raise and pausing after each call that does. The time paused
      is `pauses * delay`. */
  method RetryAction<T, E>(call: nat -> Attempt<T, E>, maxRetries: nat)
    returns (result: Retried<T, E>, calls: nat, pauses: nat)
    ensures RetryRun(result, calls, pauses) == RetrySpec(call, maxRetries)
  {
    var last: Option<E> := None;
    var attempt := 0;
    pauses := 0;
    while attempt < maxRetries
      invariant attempt <= maxRetries && pauses == attempt
      invariant RetryFrom(call, maxRetries, attempt, last) == RetrySpec(call, maxRetries)
    {
      var outcome := call(attempt);
      if outcome.Returns? {
        return Returned(outcome.value), attempt + 1, pauses;
      }
      last := Some(outcome.error);
      pauses := pauses + 1;
      attempt := attempt + 1;
    }
    return Reraised(last), attempt, pauses;
  }

  // ---------------------------------------------------------------------------
  // Properties

  /** How the run ends: every call before the last one failed; the run returns the
      first success unchanged, or re-raises the last failure after exactly
      `max_retries` calls; one pause follows each failure. */
  lemma {:induction false} RetryFromShape<T, E>(call: nat -> Attempt<T, E>, maxRetries: nat, k: nat, last: Option<E>)
    requires k <= maxRetries
    requires k > 0 ==> call(k - 1).Raises? && last == Some(call(k - 1).error)
    requires k == 0 ==> last.None?
    requires forall j :: 0 <= j < k ==> call(j).Raises?
    ensures var run := RetryFrom(call, maxRetries, k, last);
      k <= run.calls <= maxRetries
      && (forall j :: 0 <= j < run.calls - 1 ==> call(j).Raises?)
      && (run.result.Returned? ==>
            run.calls >= 1 && call(run.calls - 1) == Returns(run.result.value) && run.pauses == run.calls - 1)
      && (run.result.Reraised? ==>
            run.calls == maxRetries && run.pauses == maxRetries
            && (forall j :: 0 <= j < maxRetries ==> call(j).Raises?)
            && (maxRetries == 0 ==> run.result.last.None?)
            && (maxRetries > 0 ==> run.result.last == Some(call(maxRetries - 1).error)))
    decreases maxRetries - k
  {
    if k < maxRetries && call(k).Raises? {
      RetryFromShape(call, maxRetries, k + 1, Some(call(k).error));
    }
  }

  lemma RetryShape<T, E>(call: nat -> Attempt<T, E>, maxRetries: nat)
    ensures var run := RetrySpec(call, maxRetries);
      run.calls <= maxRetries
      && (run.result.Returned? ==>
            run.calls >= 1 && call(run.calls - 1) == Returns(run.result.value)
            && (forall j :: 0 <= j < run.calls - 1 ==> call(j).Raises?)
            && run.pauses == run.calls - 1)
      && (run.result.Reraised? ==>
            run.calls == maxRetries && run.pauses == maxRetries
            && (forall j :: 0 <= j < maxRetries ==> call(j).Raises?)
            && (maxRetries > 0 ==> run.result.last == Some(call(maxRetries - 1).error)))
  {
    RetryFromShape(call, maxRetries, 0, None);
  }

  /** The converse of the first success: if some call within the budget returns,
      the wrapper returns the value of the first such call. */
  lemma {:induction false} FirstSuccessFrom<T, E>(call: nat -> Attempt<T, E>, maxRetries: nat, k: nat, last: Option<E>, i: nat)
    requires k <= i < maxRetries && call(i).Returns?
    requires forall j :: k <= j < i ==> call(j).Raises?
    ensures RetryFrom(call, maxRetries, k, last) == RetryRun(Returned(call(i).value), i + 1, i)
    decreases i - k
  {
    if k < i {
      FirstSuccessFrom(call, maxRetries, k + 1, Some(call(k).error), i);
    }
  }

  lemma FirstSuccessWins<T, E>(call: nat -> Attempt<T, E>, maxRetries: nat, i: nat)
    requires i < maxRetries && call(i).Returns?
    requires forall j :: 0 <= j < i ==> call(j).Raises?
    ensures RetrySpec(call, maxRetries) == RetryRun(Returned(call(i).value), i + 1, i)
  {
    FirstSuccessFrom(call, maxRetries, 0, None, i);
  }

  /** An action that never raises, such as `search_period`, which catches every
      exception itself and returns `False`, is called exactly once. */
  lemma NonRaisingActionIsCalledOnce<T, E>(call: nat -> Attempt<T, E>)
    requires call(0).Returns?
    ensures RetrySpec(call, MaxRetries) == RetryRun(Returned(call(0).value), 1, 0)
  {
    FirstSuccessWins(call, MaxRetries, 0);
  }

  /** With zero retries nothing is called and the wrapper raises `None`. */
  lemma ZeroRetriesRaiseNone<T, E>(call: nat -> Attempt<T, E>)
    ensures RetrySpec(call, 0) == RetryRun(Reraised(None), 0, 0)
  {
  }
}
