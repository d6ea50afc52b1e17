/** The retrier of `Retry(effector, retries, delay)`: one call of the returned effector, as a
    bounded recursion over attempt numbers. What the effector returns at each attempt and how each
    wait between attempts ends (the delay elapsed, or the context was done first) are inputs. */
module Retry {
  import opened Circuit

  /** How the `select` after a failed attempt ends: the `delay` timer fired, or `ctx.Done()` was
      ready first (or picked when both were ready), with `ctx.Err()` as its cause. */
  datatype Wait = Elapsed | Interrupted(cause: CtxError)

  /** What one call of the retrying effector returns, and how many times it called the effector. */
  datatype Outcome = Outcome(reply: Reply, invocations: nat)

  /** Number of retries actually allowed: a negative `retries` allows none. */
  function Budget(retries: int): nat
  {
    if retries < 0 then 0 else retries
  }

  /** The loop from attempt `r` on: call the effector; stop on success or once `r >= retries`;
      otherwise wait and either go on with attempt `r + 1` or give up with the context's error. */
  function From(effector: nat -> Reply, wait: nat -> Wait, retries: int, r: nat): (o: Outcome)
    ensures 1 <= o.invocations <= Budget(retries - r) + 1
    ensures o.reply.err.None? ==> o.reply.response == effector(r + o.invocations - 1).response
    ensures o.reply.err.None? ==> effector(r + o.invocations - 1).Succeeded() || r + o.invocations - 1 >= retries
    ensures o.reply.err.Some? ==> o.reply.response == "" && o.reply.err.value.ContextError? &&
                                  wait(r + o.invocations - 1) == Interrupted(o.reply.err.value.cause)
    decreases if r < retries then retries - r else 0
  {
    var attempt := effector(r);
    if attempt.err.None? || r >= retries then
      Outcome(Reply(attempt.response, None), 1)
    else
      match wait(r)
      case Interrupted(cause) => Outcome(Reply("", Some(ContextError(cause))), 1)
      case Elapsed =>
        var rest := From(effector, wait, retries, r + 1);
        Outcome(rest.reply, rest.invocations + 1)
  }

  /** One call of the retrying effector. */
  function Call(effector: nat -> Reply, wait: nat -> Wait, retries: int): Outcome
  {
    From(effector, wait, retries, 0)
  }

  /** If attempts `r .. k-1` all failed with retries to spare and their waits elapsed, and attempt
      `k` succeeds or is the last one allowed, the call returns attempt `k`'s response with a nil
      error, whatever attempt `k`'s error was, after `k - r + 1` invocations. */
  lemma {:induction false} StopsAtFirstSuccessOrLastAttempt(effector: nat -> Reply, wait: nat -> Wait,
                                                             retries: int, r: nat, k: nat)
    requires r <= k
    requires forall i :: r <= i < k ==> !effector(i).Succeeded() && i < retries && wait(i) == Elapsed
    requires effector(k).Succeeded() || k >= retries
    ensures From(effector, wait, retries, r) == Outcome(Reply(effector(k).response, None), k - r + 1)
    decreases k - r
  {
    if r < k {
      StopsAtFirstSuccessOrLastAttempt(effector, wait, retries, r + 1, k);
    }
  }

  /** If attempts `0 .. k-1` all failed and their waits elapsed, attempt `k` fails with retries to
      spare, and the context is done during the wait that follows, the call makes no further
      attempt and returns an empty response with the context's error. */
  lemma {:induction false} CancelledWaitStopsRetrying(effector: nat -> Reply, wait: nat -> Wait,
                                                       retries: int, r: nat, k: nat, cause: CtxError)
    requires r <= k < retries
    requires forall i :: r <= i < k ==> !effector(i).Succeeded() && wait(i) == Elapsed
    requires !effector(k).Succeeded() && wait(k) == Interrupted(cause)
    ensures From(effector, wait, retries, r) == Outcome(Reply("", Some(ContextError(cause))), k - r + 1)
    decreases k - r
  {
    if r < k {
      CancelledWaitStopsRetrying(effector, wait, retries, r + 1, k, cause);
    }
  }

  /** An effector that always fails, with no cancellation, is called `max(retries, 0) + 1` times
      (four times for `retries == 3`), and the call still reports no error. */
  lemma AlwaysFailingRunsBudgetPlusOne(effector: nat -> Reply, wait: nat -> Wait, retries: int)
    requires forall i: nat :: !effector(i).Succeeded() && wait(i) == Elapsed
    ensures Call(effector, wait, retries) == Outcome(Reply(effector(Budget(retries)).response, None), Budget(retries) + 1)
    ensures retries == 3 ==> Call(effector, wait, retries).invocations == 4
  {
    StopsAtFirstSuccessOrLastAttempt(effector, wait, retries, 0, Budget(retries));
  }

  /** An effector that fails twice and then succeeds, retried up to three times without
      cancellation, succeeds on its third attempt after two waits. */
  lemma FailsTwiceThenSucceeds(effector: nat -> Reply, wait: nat -> Wait)
    requires !effector(0).Succeeded() && !effector(1).Succeeded() && effector(2).Succeeded()
    requires wait(0) == Elapsed && wait(1) == Elapsed
    ensures Call(effector, wait, 3) == Outcome(effector(2), 3)
  {
    StopsAtFirstSuccessOrLastAttempt(effector, wait, 3, 0, 2);
  }

  /** The Go closure's `for` loop, written as a `while` loop: attempt, return on success or an exhausted budget,
      otherwise wait or give up on cancellation. */
  method RetryLoop(effector: nat -> Reply, wait: nat -> Wait, retries: int) returns (reply: Reply, invocations: nat)
    ensures Outcome(reply, invocations) == Call(effector, wait, retries)
    ensures 1 <= invocations <= Budget(retries) + 1
    ensures reply.err.None? ==> reply.response == effector(invocations - 1).response
  {
    var r: nat := 0;
    while true
      invariant r <= Budget(retries)
      invariant From(effector, wait, retries, r).invocations + r == Call(effector, wait, retries).invocations
      invariant From(effector, wait, retries, r).reply == Call(effector, wait, retries).reply
      decreases Budget(retries) - r
    {
      var attempt := effector(r);
      if attempt.err.None? || r >= retries {
        return Reply(attempt.response, None), r + 1;
      }
      match wait(r)
      case Interrupted(cause) =>
        return Reply("", Some(ContextError(cause))), r + 1;
      case Elapsed =>
      r := r + 1;
    }
  }
}
