/** The circuit breaker as a value, and the atomic segments of `CircuitBreaker.call` as
    functions on it.  `call` takes its lock twice and never suspends while it holds it, so a
    call is two atomic steps, admission and completion, with the guarded coroutine between. */
module BreakerModel {
  import opened Numbers

  datatype Mode = Closed | Open | HalfOpen

  /** Thresholds are plain integers: the constructor of the source accepts any. */
  datatype Config = Config(failureThreshold: int, cooldown: real, successThreshold: int, maxTrials: int)

  datatype Breaker = Breaker(mode: Mode, failures: int, successes: int, trials: int, lastFailure: real)

  datatype Admission = Admitted | RejectedOpen(retryAfter: real) | RejectedSaturated

  /** Exceptions by the class the breaker tests for; everything else is Other. */
  datatype ErrorKind = ValueError | TypeError | KeyError | IndexError | AttributeError | AssertionError | Other

  predicate IsTransient(e: ErrorKind) {
    e.Other?
  }

  const INITIAL := Breaker(Closed, 0, 0, 0, 0.0)

  predicate CooledDown(c: Config, b: Breaker, now: real) {
    b.mode.Open? && now - b.lastFailure > c.cooldown
  }

  /** The lazy OPEN to HALF_OPEN move at the head of a call. */
  function Probe(c: Config, b: Breaker, now: real): Breaker {
    if CooledDown(c, b, now) then b.(mode := HalfOpen, trials := 0, successes := 0) else b
  }

  function Decision(c: Config, b: Breaker, now: real): Admission {
    var p := Probe(c, b, now);
    match p.mode
    case Open => RejectedOpen(c.cooldown - (now - b.lastFailure))
    case HalfOpen => if p.trials >= c.maxTrials then RejectedSaturated else Admitted
    case Closed => Admitted
  }

  function Admit(c: Config, b: Breaker, now: real): Breaker {
    var p := Probe(c, b, now);
    if p.mode.HalfOpen? && Decision(c, b, now).Admitted? then p.(trials := p.trials + 1) else p
  }

  /** Both completions give a trial slot back, whoever the completed call is. */
  function Release(b: Breaker): Breaker {
    if b.mode.HalfOpen? then b.(trials := Max(0, b.trials - 1)) else b
  }

  function OnException(c: Config, b: Breaker, transient: bool, now: real): Breaker {
    var r := Release(b);
    if !transient then r
    else
      var n := r.failures + 1;
      var trips := b.mode.HalfOpen? || n >= c.failureThreshold;
      r.(failures := n, lastFailure := now, successes := 0, mode := if trips then Open else b.mode)
  }

  function Close(b: Breaker): Breaker {
    b.(mode := Closed, failures := 0, successes := 0)
  }

  function OnSuccess(c: Config, b: Breaker): Breaker {
    match b.mode
    case HalfOpen =>
      var r := Release(b);
      if r.successes + 1 >= c.successThreshold then Close(r) else r.(successes := r.successes + 1)
    case Open => Close(b)
    case Closed => b.(failures := if b.failures > 0 then b.failures - 1 else b.failures)
  }
}
