/** The debouncer of `Debounce(circuit, duration)`: the closure's captured `threshold` and cached
    `result`/`err` as an immutable record, and one call of the returned circuit as a step function.
    The clock readings and the wrapped circuit's reply are inputs. */
module Debounce {
  import opened Circuit

  /** `threshold` is the end of the suppression window; `result` and `err` are the last reply the
      wrapped circuit gave. */
  datatype State = State(threshold: int, result: string, err: Option<Error>)

  /** Go's zero values: the zero time, the empty string, a nil error. */
  const Initial: State := State(0, "", None)

  datatype Step = Step(next: State, reply: Reply, invoked: bool)

  /** One call of the debounced circuit. `now` is the clock when the call checks the window,
      `circuit` is what the wrapped circuit returns if it is called, and `done` is the clock read
      when the call returns, from which the new window is measured. */
  function Call(s: State, duration: Duration, now: Time, circuit: Reply, done: Time): (st: Step)
    ensures st.invoked <==> s.threshold <= now
    ensures st.next.threshold == done + duration
    ensures !st.invoked ==> st.reply == Reply(s.result, s.err) && st.next.result == s.result && st.next.err == s.err
    ensures st.invoked ==> st.reply == Reply(circuit.response, None)
    ensures st.invoked ==> st.next.result == circuit.response && st.next.err == circuit.err
  {
    var next := State(done + duration, s.result, s.err);
    if now < s.threshold then
      Step(next, Reply(s.result, s.err), false)
    else
      Step(next.(result := circuit.response, err := circuit.err), Reply(circuit.response, None), true)
  }

  /** The first call of a new debouncer always reaches the circuit: the zero time lies before
      every reading of the clock. */
  lemma FirstCallInvokes(duration: Duration, now: Time, circuit: Reply, done: Time)
    ensures Call(Initial, duration, now, circuit, done).invoked
    ensures Call(Initial, duration, now, circuit, done).reply == Reply(circuit.response, None)
  {
  }

  /** A fresh call hides the circuit's error from its caller but stores it, and a call inside the
      window that follows replays it: the same failure is reported as a success the first time and
      as a failure the second. */
  lemma CacheReplaysSuppressedError(s: State, duration: Duration, now1: Time, c1: Reply, done1: Time,
                                    now2: Time, c2: Reply, done2: Time)
    requires s.threshold <= now1 && now2 < done1 + duration
    ensures var first := Call(s, duration, now1, c1, done1);
      first.invoked && first.reply == Reply(c1.response, None) &&
      var second := Call(first.next, duration, now2, c2, done2);
      !second.invoked && second.reply == c1
  {
  }

  /** One call offered to the debouncer. */
  datatype Attempt = Attempt(now: Time, circuit: Reply, done: Time)

  /** The debouncer after a sequence of calls, with the reply of each call and whether it reached
      the circuit. */
  datatype Trace = Trace(state: State, replies: seq<Reply>, invoked: seq<bool>)

  function Run(s: State, duration: Duration, calls: seq<Attempt>): (t: Trace)
    ensures |t.replies| == |t.invoked| == |calls|
    decreases |calls|
  {
    if calls == [] then Trace(s, [], [])
    else
      var t := Run(s, duration, calls[..|calls| - 1]);
      var a := calls[|calls| - 1];
      var st := Call(t.state, duration, a.now, a.circuit, a.done);
      Trace(st.next, t.replies + [st.reply], t.invoked + [st.invoked])
  }

  /** Call `i` comes outside the suppression window: for the first call, at or after the starting
      threshold; for any later one, at least `duration` after the previous call returned. */
  predicate OutsideWindow(s: State, duration: Duration, calls: seq<Attempt>, i: nat)
    requires i < |calls|
  {
    if i == 0 then s.threshold <= calls[0].now else calls[i - 1].done + duration <= calls[i].now
  }

  /** Over any sequence of calls, a call reaches the circuit exactly when it comes outside the
      window opened by the return of the call before it (cache hits included), and the window then
      ends `duration` after the last call returned. */
  lemma {:induction false} InvokedExactlyOutsideWindow(s: State, duration: Duration, calls: seq<Attempt>)
    ensures var t := Run(s, duration, calls);
      forall i :: 0 <= i < |calls| ==> (t.invoked[i] <==> OutsideWindow(s, duration, calls, i))
    ensures calls != [] ==> Run(s, duration, calls).state.threshold == calls[|calls| - 1].done + duration
    decreases |calls|
  {
    if calls != [] {
      var init := calls[..|calls| - 1];
      InvokedExactlyOutsideWindow(s, duration, init);
      forall i | 0 <= i < |init|
        ensures OutsideWindow(s, duration, init, i) == OutsideWindow(s, duration, calls, i)
      {
      }
    }
  }

  /** Over any sequence of calls, a call that stays inside the window replays the reply of the last
      call that reached the circuit, its error included; a call that reaches the circuit returns the
      circuit's response with a nil error. */
  lemma {:induction false} CacheHitsReplayLastInvocation(s: State, duration: Duration, calls: seq<Attempt>)
    ensures var t := Run(s, duration, calls);
      forall i :: 0 <= i < |calls| && t.invoked[i] ==> t.replies[i] == Reply(calls[i].circuit.response, None)
    ensures var t := Run(s, duration, calls);
      forall j, i :: 0 <= j < i < |calls| && t.invoked[j] && (forall m :: j < m <= i ==> !t.invoked[m]) ==>
        t.replies[i] == calls[j].circuit
    ensures var t := Run(s, duration, calls);
      forall j :: 0 <= j < |calls| && t.invoked[j] && (forall m :: j < m < |calls| ==> !t.invoked[m]) ==>
        t.state.result == calls[j].circuit.response && t.state.err == calls[j].circuit.err
    decreases |calls|
  {
    if calls != [] {
      var init := calls[..|calls| - 1];
      CacheHitsReplayLastInvocation(s, duration, init);
      var t0 := Run(s, duration, init);
      var t := Run(s, duration, calls);
      assert forall m :: 0 <= m < |init| ==> t.invoked[m] == t0.invoked[m] && t.replies[m] == t0.replies[m];
      forall j | 0 <= j < |calls| && t.invoked[j] && (forall m :: j < m < |calls| ==> !t.invoked[m])
        ensures t.state.result == calls[j].circuit.response && t.state.err == calls[j].circuit.err
      {
        if j < |init| {
          assert !t.invoked[|init|];
          assert forall m :: j < m < |init| ==> !t0.invoked[m];
        }
      }
    }
  }

  /** A burst of calls, each arriving before `duration` has passed since the previous one returned,
      reaches the circuit once: the window slides forward with every cached call, so the burst may
      last far longer than `duration`. Every later call in the burst replays the first call's
      reply, error included. */
  lemma BurstInvokesOnce(s: State, duration: Duration, calls: seq<Attempt>)
    requires |calls| >= 1 && s.threshold <= calls[0].now
    requires forall i :: 1 <= i < |calls| ==> calls[i].now < calls[i - 1].done + duration
    ensures var t := Run(s, duration, calls);
      t.invoked[0] && (forall i :: 1 <= i < |calls| ==> !t.invoked[i]) &&
      t.replies[0] == Reply(calls[0].circuit.response, None) &&
      (forall i :: 1 <= i < |calls| ==> t.replies[i] == calls[0].circuit)
  {
    InvokedExactlyOutsideWindow(s, duration, calls);
    CacheHitsReplayLastInvocation(s, duration, calls);
  }
}
