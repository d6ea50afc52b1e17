/** Types shared by the three stability decorators: the `Circuit`/`Effector` call shape
    (a context in, a response string and an optional error out), the clock, and the errors
    the decorators can produce. */
module Circuit {

  /** A reading of the clock: nanoseconds since Go's zero `time.Time` (January 1, year 1 UTC).
      The zero time is therefore instant 0 and no reading of the clock lies before it. */
  type Time = nat

  /** A `time.Duration`: a signed number of nanoseconds. */
  type Duration = int

  const Second: Duration := 1_000_000_000

  datatype Option<+T> = None | Some(value: T)

  /** The two errors a Go context reports once it is done. */
  datatype CtxError = Canceled | DeadlineExceeded

  datatype Error =
    | /** The breaker refused the call while backing off. */
      ServiceUnreachable
    | /** `ctx.Err()` observed while waiting. */
      ContextError(cause: CtxError)
    | /** Any error produced by the wrapped call, opaque to the decorators. */
      Failed(message: string)

  /** What one call of a `Circuit` or `Effector` returns: `(string, error)`, a nil error being `None`. */
  datatype Reply = Reply(response: string, err: Option<Error>) {
    predicate Succeeded() { err.None? }
  }

  /** The reply the breaker gives while it is backing off. */
  const Unreachable: Reply := Reply("", Some(ServiceUnreachable))
}
