/** The circuit breaker of `Breaker(circuit, failureThreshold)`: the state its closure captures
    (`consecutiveFailures`, `lastAttempt`, the threshold) as an immutable record, and one call of the
    returned circuit as a step function. The clock readings and the wrapped circuit's reply are inputs. */
module Breaker {
  import opened Circuit

  function Pow2(n: nat): (r: nat)
    ensures r >= 1
  {
    if n == 0 then 1 else 2 * Pow2(n - 1)
  }

  lemma {:induction false} Pow2Add(a: nat, b: nat)
    ensures Pow2(a + b) == Pow2(a) * Pow2(b)
    decreases a
  {
    if a > 0 {
      Pow2Add(a - 1, b);
      assert Pow2(a + b) == 2 * Pow2(a - 1 + b);
    }
  }

  lemma {:induction false} Pow2Monotonic(a: nat, b: nat)
    requires a <= b
    ensures Pow2(a) <= Pow2(b)
  {
    Pow2Add(a, b - a);
  }

  /** The backoff `(time.Second * 2) << d` a breaker `d` failures past its threshold waits,
      measured from its last attempt: 2^(d+1) seconds, without the int64 limit of Go's `time.Duration`. */
  function Backoff(d: nat): Duration
  {
    2 * Second * Pow2(d)
  }

  /** Each failure past the threshold doubles the backoff, which starts at two seconds. */
  lemma BackoffDoubles(d: nat)
    ensures Backoff(0) == 2 * Second
    ensures Backoff(d + 1) == 2 * Backoff(d)
    ensures Backoff(d) >= 2 * Second
  {
  }

  datatype State = State(failures: nat, lastAttempt: Time, threshold: nat)

  /** A fresh breaker: no failures, and the last attempt is the moment it was built. */
  function New(threshold: nat, created: Time): State
  {
    State(0, created, threshold)
  }

  /** `d` in Go's `Breaker`: how many failures the breaker is past its threshold (negative below it). */
  function Excess(b: State): int
  {
    b.failures - b.threshold
  }

  /** The call at `now` is refused: the threshold is reached and `now` is not after the end of the backoff. */
  predicate Gated(b: State, now: Time)
  {
    Excess(b) >= 0 && now <= b.lastAttempt + Backoff(Excess(b))
  }

  /** The outcome of one call: the state afterwards, the reply to the caller, and whether the wrapped
      circuit ran. */
  datatype Step = Step(next: State, reply: Reply, invoked: bool)

  /** One call of the breaker-wrapped circuit. `now` is the clock at the gate check, `circuit` is what
      the wrapped circuit returns if it is called, and `done` is the clock once it has returned. */
  function Call(b: State, now: Time, circuit: Reply, done: Time): (s: Step)
    ensures s.invoked <==> !Gated(b, now)
    ensures b.failures < b.threshold ==> s.invoked
    ensures !s.invoked ==> s.next == b && s.reply == Unreachable
    ensures s.invoked ==> s.reply == circuit && s.next.lastAttempt == done && s.next.threshold == b.threshold
    ensures s.invoked && !circuit.Succeeded() ==> s.next.failures == b.failures + 1
    ensures s.invoked && circuit.Succeeded() ==> s.next.failures == 0
  {
    if Gated(b, now) then
      Step(b, Unreachable, false)
    else if circuit.err.Some? then
      Step(State(b.failures + 1, done, b.threshold), circuit, true)
    else
      Step(State(0, done, b.threshold), Reply(circuit.response, None), true)
  }

  /** With a threshold of 0 the breaker is past its threshold from the start: every call up to two
      seconds after construction is refused without calling the circuit, and so is every call up to
      two seconds after any successful call. */
  lemma ZeroThresholdGates(b: State, now: Time, circuit: Reply, done: Time)
    requires b.threshold == 0 && b.failures == 0
    requires now <= b.lastAttempt + 2 * Second
    ensures Call(b, now, circuit, done) == Step(b, Unreachable, false)
  {
    BackoffDoubles(0);
  }

  lemma ZeroThresholdStartsGated(created: Time, now: Time, circuit: Reply, done: Time)
    requires now <= created + 2 * Second
    ensures Call(New(0, created), now, circuit, done) == Step(New(0, created), Unreachable, false)
  {
    ZeroThresholdGates(New(0, created), now, circuit, done);
  }

  /** A call made as soon as the current backoff has elapsed reaches the circuit: the refusal window
      is exactly `lastAttempt` to `lastAttempt + Backoff(d)`, both ends included. */
  lemma GateReopensAfterBackoff(b: State, circuit: Reply, done: Time)
    requires Excess(b) >= 0
    ensures Call(b, b.lastAttempt + Backoff(Excess(b)), circuit, done).reply == Unreachable
    ensures Call(b, b.lastAttempt + Backoff(Excess(b)) + 1, circuit, done).invoked
  {
    BackoffDoubles(Excess(b));
  }

  /** One call offered to the breaker: the clock at the gate, the wrapped circuit's reply, and the
      clock when it returns. */
  datatype Attempt = Attempt(now: Time, circuit: Reply, done: Time)

  /** The breaker after a sequence of calls, with the log of the calls that reached the circuit. */
  datatype Trace = Trace(state: State, invoked: seq<Attempt>)

  function Run(b: State, calls: seq<Attempt>): Trace
    decreases |calls|
  {
    if calls == [] then Trace(b, [])
    else
      var t := Run(b, calls[..|calls| - 1]);
      var a := calls[|calls| - 1];
      var s := Call(t.state, a.now, a.circuit, a.done);
      Trace(s.next, if s.invoked then t.invoked + [a] else t.invoked)
  }

  /** Running one more call is one more step. */
  lemma RunSnoc(b: State, calls: seq<Attempt>, a: Attempt)
    ensures var t := Run(b, calls);
      var s := Call(t.state, a.now, a.circuit, a.done);
      Run(b, calls + [a]) == Trace(s.next, if s.invoked then t.invoked + [a] else t.invoked)
  {
    var all := calls + [a];
    assert all[..|all| - 1] == calls;
    assert all[|all| - 1] == a;
  }

  /** No invocation in `log` after position `k` succeeded (with `k == -1`: none at all). */
  predicate FailedAfter(log: seq<Attempt>, k: int)
  {
    forall j :: 0 <= j < |log| && k < j ==> !log[j].circuit.Succeeded()
  }

  /** Over any sequence of calls the threshold never changes and the last attempt is the
      completion time of the last call that reached the circuit. */
  lemma {:induction false} RunTracksLastAttempt(b: State, calls: seq<Attempt>)
    ensures var t := Run(b, calls);
      t.state.threshold == b.threshold &&
      t.state.lastAttempt == (if t.invoked == [] then b.lastAttempt else t.invoked[|t.invoked| - 1].done)
    decreases |calls|
  {
    if calls != [] {
      RunTracksLastAttempt(b, calls[..|calls| - 1]);
    }
  }

  /** The counter counts the failures since the last success. Over any sequence of calls the
      failure counter is the length of the run of failed invocations at the end of the log, added
      to the starting count when no invocation succeeded. */
  lemma {:induction false} CounterCountsTrailingFailures(b: State, calls: seq<Attempt>)
    ensures var t := Run(b, calls);
      FailedAfter(t.invoked, -1) ==> t.state.failures == b.failures + |t.invoked|
    ensures var t := Run(b, calls);
      forall k :: 0 <= k < |t.invoked| && t.invoked[k].circuit.Succeeded() && FailedAfter(t.invoked, k) ==>
        t.state.failures == |t.invoked| - 1 - k
    decreases |calls|
  {
    if calls != [] {
      var init := calls[..|calls| - 1];
      CounterCountsTrailingFailures(b, init);
      var t := Run(b, init);
      var a := calls[|calls| - 1];
      var s := Call(t.state, a.now, a.circuit, a.done);
      assert Run(b, calls) == Trace(s.next, if s.invoked then t.invoked + [a] else t.invoked);
      if s.invoked {
        var log := t.invoked + [a];
        assert log[|log| - 1] == a;
        assert forall j :: 0 <= j < |t.invoked| ==> log[j] == t.invoked[j];
        forall k | 0 <= k < |log| && log[k].circuit.Succeeded() && FailedAfter(log, k)
          ensures s.next.failures == |log| - 1 - k
        {
          if k < |t.invoked| {
            assert !a.circuit.Succeeded();
            assert FailedAfter(t.invoked, k);
          }
        }
        if FailedAfter(log, -1) {
          assert FailedAfter(t.invoked, -1);
          assert !a.circuit.Succeeded();
        }
      }
    }
  }

  /** Once the invocations since the last reset include `threshold` failures in a row, the next
      call that comes within the backoff of the last failure is refused without reaching the
      circuit. */
  lemma ThresholdFailuresGateNextCall(b: State, calls: seq<Attempt>, k: nat, next: Attempt)
    requires var t := Run(b, calls);
      k < |t.invoked| && t.invoked[k].circuit.Succeeded() &&
      FailedAfter(t.invoked, k) && |t.invoked| - 1 - k >= b.threshold &&
      next.now <= t.invoked[|t.invoked| - 1].done + Backoff(|t.invoked| - 1 - k - b.threshold)
    ensures Run(b, calls + [next]).state == Run(b, calls).state
    ensures Run(b, calls + [next]).invoked == Run(b, calls).invoked
  {
    var t := Run(b, calls);
    CounterCountsTrailingFailures(b, calls);
    RunTracksLastAttempt(b, calls);
    assert t.state.failures == |t.invoked| - 1 - k;
    assert Gated(t.state, next.now);
    RunSnoc(b, calls, next);
  }

  /** From construction: once `threshold` invocations have failed (with no success among them),
      the next call within the backoff of the last failure, or of construction when there was
      none, is refused. With threshold 0 this already holds before any call. */
  lemma FreshBreakerGatesAfterThresholdFailures(threshold: nat, created: Time, calls: seq<Attempt>, next: Attempt)
    requires var t := Run(New(threshold, created), calls);
      FailedAfter(t.invoked, -1) && |t.invoked| >= threshold &&
      next.now <= (if t.invoked == [] then created else t.invoked[|t.invoked| - 1].done)
                  + Backoff(|t.invoked| - threshold)
    ensures Run(New(threshold, created), calls + [next]).state == Run(New(threshold, created), calls).state
    ensures Run(New(threshold, created), calls + [next]).invoked == Run(New(threshold, created), calls).invoked
  {
    var b := New(threshold, created);
    var t := Run(b, calls);
    CounterCountsTrailingFailures(b, calls);
    RunTracksLastAttempt(b, calls);
    assert t.state.failures == |t.invoked|;
    assert t.state.lastAttempt == (if t.invoked == [] then created else t.invoked[|t.invoked| - 1].done);
    assert Gated(t.state, next.now);
    RunSnoc(b, calls, next);
  }

  // ---------------------------------------------------------------------------------------------
  // The backoff as Go's `Breaker` computes it, in 64-bit `time.Duration` arithmetic.

  /** Two's-complement reduction of an integer to int64, as Go's fixed-width arithmetic does. */
  function Int64(x: int): int
  {
    (x + 0x8000_0000_0000_0000) % 0x1_0000_0000_0000_0000 - 0x8000_0000_0000_0000
  }

  /** `time.Second * 2 << d` evaluated as an int64, the bits shifted past bit 63 being lost. */
  function BackoffAsWritten(d: nat): Duration
  {
    Int64(2 * Second * Pow2(d))
  }

  predicate GatedAsWritten(b: State, now: Time)
  {
    Excess(b) >= 0 && now <= b.lastAttempt + BackoffAsWritten(Excess(b))
  }

  lemma Pow2Exact()
    ensures Pow2(32) == 0x1_0000_0000
    ensures Pow2(33) == 0x2_0000_0000
  {
    assert Pow2(8) == 256;
    Pow2Add(8, 8);
    Pow2Add(16, 16);
    Pow2Add(32, 1);
  }

  /** Up to 32 failures past the threshold the int64 shift does not overflow and Go's
      backoff is the intended 2^(d+1) seconds. */
  lemma BackoffAsWrittenAgrees(d: nat)
    requires d <= 32
    ensures BackoffAsWritten(d) == Backoff(d)
    ensures Backoff(d) > 0
  {
    Pow2Monotonic(d, 32);
    Pow2Exact();
    var x := 2 * Second * Pow2(d);
    assert 0 < x <= 8_589_934_592_000_000_000;
  }

  /** At 33 failures past the threshold the shifted duration sets the sign bit: Go's
      backoff is negative, so a call at the very instant of the last failure passes the gate that
      the intended backoff (2^34 seconds) keeps closed. */
  lemma BackoffAsWrittenWraps(b: State)
    requires Excess(b) == 33
    ensures BackoffAsWritten(33) < 0
    ensures !GatedAsWritten(b, b.lastAttempt)
    ensures Gated(b, b.lastAttempt)
  {
    Pow2Exact();
    assert 2 * Second * Pow2(33) == 17_179_869_184_000_000_000;
  }
}
