# Stability patterns: circuit breaker, debounce and retry

A Dafny model of the three resilience decorators of `src/stability_patterns.go`. Each one wraps
a `Circuit`/`Effector`, which takes a context and returns `(string, error)`, and returns a
function of the same shape:

- `Breaker` fails fast once a wrapped circuit has failed `failureThreshold` times in a row. It
  refuses calls for `(time.Second * 2) << d` after the last attempt, where `d` counts the failures
  past the threshold.
- `Debounce` replays the last cached reply to any call made before the end of a window. The window
  ends `duration` after the previous call returned.
- `Retry` calls the effector again after each failure, up to `retries` more times. It waits `delay`
  between attempts and gives up if the context is done during a wait.

The state each closure captures is an immutable record, and each call of the returned function is
a pure step function. `Breaker.State` holds `consecutiveFailures`, `lastAttempt` and the threshold.
`Debounce.State` holds `threshold` and the cached `result` and `err`.

The outside world comes in as inputs:

- Every `time.Now()` is a clock reading passed in, and the clock counts nanoseconds from Go's zero
  time.
- What the wrapped call returns is passed in as a `Reply`.
- In `Retry`, the wrapped call's reply at each attempt is an oracle indexed by attempt number, and
  so is the outcome of each `select`: `Elapsed` or `Interrupted`.

Sequences of calls (`Breaker.Run`, `Debounce.Run`) fold the step functions. The lemmas about them
cover what happens across many calls.

Files: `circuit.dfy` (shared types), `breaker.dfy`, `debounce.dfy`, `retry.dfy`.

The breaker gates as soon as `consecutiveFailures - failureThreshold >= 0`. So a breaker with
threshold `t` refuses the call after `t` consecutive failures. With threshold 0 it refuses from
construction on.

## Model

| member | source | states |
|---|---|---|
| Breaker.Call | src/stability_patterns.go:27-62 | The circuit runs exactly when the gate is open. A refused call returns `("", service unreachable)` and leaves the state unchanged. Below the threshold no call is refused. A failure adds exactly one to the counter and a success resets it to 0; both set `lastAttempt` to the completion time and return the circuit's reply unchanged. |
| Breaker.BackoffDoubles | src/stability_patterns.go:35 | The backoff is 2 s at the threshold and doubles with each further failure, so it is 2^(d+1) seconds. |
| Breaker.ZeroThresholdGates | src/stability_patterns.go:32-39 | With threshold 0 and no failures, every call up to 2 s after the last attempt is refused, even right after a success. |
| Breaker.ZeroThresholdStartsGated | src/stability_patterns.go:22-39 | A new breaker with threshold 0 refuses every call up to 2 s after its construction. |
| Breaker.GateReopensAfterBackoff | src/stability_patterns.go:32-44 | The refusal window includes its end point (`!After`). One nanosecond later the call reaches the circuit. |
| Breaker.RunTracksLastAttempt | src/stability_patterns.go:50 | After any sequence of calls, `lastAttempt` is the completion time of the last call that reached the circuit, or the construction time if none did. The threshold never changes. |
| Breaker.CounterCountsTrailingFailures | src/stability_patterns.go:50-61 | After any sequence of calls, the counter equals the number of failed invocations since the last successful one. If no invocation succeeded, it is the starting count plus the number of invocations. |
| Breaker.ThresholdFailuresGateNextCall | src/stability_patterns.go:32-61 | After a success followed by at least `threshold` failed invocations, a call within the backoff of the last failure is refused and changes nothing. |
| Breaker.FreshBreakerGatesAfterThresholdFailures | src/stability_patterns.go:22-61 | For a new breaker that has had `threshold` failed invocations and no success, a call within the backoff of the last failure (or of construction) is refused. |
| Breaker.BackoffAsWrittenAgrees | src/stability_patterns.go:35 | Up to 32 failures past the threshold, the int64 shift does not overflow and equals the intended 2^(d+1) seconds. |
| Breaker.BackoffAsWrittenWraps | src/stability_patterns.go:35-36 | At 33 failures past the threshold, the int64 backoff is negative. A call at the instant of the last failure then passes the gate of Go's `Breaker` but not the intended one. |
| Debounce.Call | src/stability_patterns.go:76-93 | The circuit runs exactly when `now` is not before the threshold. A cache hit returns the stored result and error and keeps them. A fresh call stores the circuit's result and error but returns the result with a nil error. Every call moves the threshold to its completion time plus `duration`. |
| Debounce.FirstCallInvokes | src/stability_patterns.go:71-92 | The zero-time initial threshold lets the first call through, and the first call returns a nil error. |
| Debounce.CacheReplaysSuppressedError | src/stability_patterns.go:80-92 | A fresh call that failed reports no error. A call inside the window after it replays the stored reply, error included, without calling the circuit. |
| Debounce.InvokedExactlyOutsideWindow | src/stability_patterns.go:80-90 | Over any sequence of calls, a call reaches the circuit if and only if it comes at least `duration` after the previous call returned (the first call: at or after the starting threshold). |
| Debounce.CacheHitsReplayLastInvocation | src/stability_patterns.go:87-92 | Over any sequence of calls, each cache hit returns the reply of the last call that reached the circuit. Each fresh call returns its response with a nil error. The cache holds the last invocation's reply. |
| Debounce.BurstInvokesOnce | src/stability_patterns.go:80-90 | A burst of calls, each inside the window that its predecessor's return opened, calls the circuit once. That holds however long the burst lasts, and every later call replays the first reply. |
| Retry.From | src/stability_patterns.go:101-111 | At most `max(retries - r, 0) + 1` invocations. A nil-error result is the last attempt's response, and that attempt succeeded or was the last one allowed. A non-nil error is always the context's error, with an empty response and an interrupted final wait. |
| Retry.StopsAtFirstSuccessOrLastAttempt | src/stability_patterns.go:101-106 | Retry returns at the first successful attempt, or at attempt `retries` whatever its error, with that response and a nil error. It makes exactly that many invocations. |
| Retry.CancelledWaitStopsRetrying | src/stability_patterns.go:107-111 | If the context is done during a wait, Retry returns `("", ctx.Err())` and makes no further attempt. |
| Retry.AlwaysFailingRunsBudgetPlusOne | src/stability_patterns.go:101-106 | An always-failing effector with no cancellation runs `max(retries, 0) + 1` times (4 for `retries = 3`), and the call returns a nil error. |
| Retry.FailsTwiceThenSucceeds | src/stability_patterns.go:101-108 | With `retries = 3`, an effector that fails twice and then succeeds returns its third reply after three invocations. |
| Retry.RetryLoop | src/stability_patterns.go:98-113 | The Go closure's `for` loop as a `while` loop. It computes the same reply and invocation count as the recursive definition, and runs the effector between 1 and `max(retries, 0) + 1` times. |

## Left out

- Locking with `sync.RWMutex` and `sync.Mutex` is left out. So is the accepted race in which two callers both pass the breaker gate before either updates the state. Calls are modelled as sequential steps.
- Composition of decorators (one decorated circuit wrapping another) is left out. Each model takes the wrapped call's reply as an input rather than running another model.
- `context.Context` is reduced to its error: `Canceled` or `DeadlineExceeded`. The context passed to the wrapped call is not modelled.
- Real time and `time.After` are replaced by clock readings and wait outcomes passed in. Go's random choice between two ready `select` cases is one of those inputs.
- The length of the retry delay is not modelled. Only whether each wait elapsed or was interrupted matters to the result.
- Breaker.Call: uses the unbounded backoff 2^(d+1) seconds. The 64-bit wrap-around of Go's `Breaker` is modelled separately (`Breaker.BackoffAsWritten`, see Findings).
- Breaker.Call: the threshold and the failure counter are unbounded naturals. Go's conversion `int(failureThreshold)` of thresholds of 2^63 or more, and counter overflow after 2^63 failures, are not modelled.
- Debounce.Call: `time.Time.Add` is plain addition. Go's loss of the monotonic reading on overflow, centuries away, is not modelled.
- `src/concurrency_patterns.go`, `src/concurrency.go`, `src/references/contexts.go`, `src/main.go` and `src/structs.go` are left out. They are goroutine and channel demos, a context tutorial and a struct-embedding example, and are not part of this model.

## Findings

| source | as written | input that shows it | evidently intended | confidence | as-written member | corrected member |
|---|---|---|---|---|---|---|
| src/stability_patterns.go:35 | `time.Second * 2 << d` is computed in int64, so it wraps once `d` reaches 33 | `consecutiveFailures = failureThreshold + 33`, call at `now == lastAttempt`: the backoff is about -1.27e18 ns, so the gate lets the call through | a backoff of 2^(d+1) seconds that keeps growing, so the gate stays closed | not executed; reached after about 2^34 s of cumulative backoff with sequential calls, but `failureThreshold + 33` concurrent failing callers that pass the open gate together reach it at once | Breaker.BackoffAsWrittenWraps | Breaker.BackoffDoubles |
