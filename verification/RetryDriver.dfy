/** The retry wrapper that drives a breaker: `execute_with_backoff_and_jitter` around
    `wait_for(breaker.call(...))`.  The timeout sits outside the breaker, so a timed-out call
    is cancelled inside it and runs no completion segment. */
module RetryDriver {
  import opened Numbers
  import opened BreakerModel
  import opened BreakerRuns
  import opened BreakerTheorems
  import opened CircuitBreakers

  /** How the guarded coroutine ends, and when. */
  datatype Ending = Value(v: int) | Error(kind: ErrorKind) | TimedOut | CallerCancelled
  datatype Reply = Reply(at: real, ending: Ending, endAt: real)

  datatype Failure = BreakerOpen | Timeout | Cancellation | Exception(kind: ErrorKind)
  datatype Outcome = Returned(v: int) | Raised(failure: Failure)

  /** One pass of the loop: the call, the call made again without config if the first raised
      TypeError, and the random factor of the sleep that may follow. */
  datatype Attempt = Attempt(first: Reply, second: Reply, jitter: real)

  /** recall: the driver repeats a call that raised TypeError. */
  datatype Policy = Policy(baseDelay: real, maxDelay: real, recall: bool)

  predicate Retriable(o: Outcome) {
    o.Raised? && !o.failure.BreakerOpen? && !o.failure.Cancellation?
  }

  // ---------- specification ----------

  function Guarded(c: Config, b: Breaker, r: Reply): (Breaker, Outcome) {
    var b' := Admit(c, b, r.at);
    if !Decision(c, b, r.at).Admitted? then (b', Raised(BreakerOpen))
    else
      match r.ending
      case Value(v) => (OnSuccess(c, b'), Returned(v))
      case Error(k) => (OnException(c, b', IsTransient(k), r.endAt), Raised(Exception(k)))
      case TimedOut => (b', Raised(Timeout))
      case CallerCancelled => (b', Raised(Cancellation))
  }

  function Try(c: Config, p: Policy, b: Breaker, a: Attempt): (Breaker, Outcome) {
    var (b1, o1) := Guarded(c, b, a.first);
    if p.recall && o1 == Raised(Exception(TypeError)) then Guarded(c, b1, a.second) else (b1, o1)
  }

  function Capped(p: Policy, delay: real): real {
    if delay < p.maxDelay then delay else p.maxDelay
  }

  function Nap(p: Policy, power: real, jitter: real): real {
    Capped(p, p.baseDelay * power) * jitter
  }

  function Sleep(p: Policy, k: nat, jitter: real): real {
    Nap(p, Pow2(k), jitter)
  }

  datatype Invocation = Invocation(b: Breaker, outcome: Outcome, attempts: nat, sleeps: seq<real>)

  /** The passes from number k on. */
  function Invoke(c: Config, p: Policy, b: Breaker, script: seq<Attempt>, k: nat): Invocation
    requires k < |script|
    decreases |script| - k
  {
    var (b1, o) := Try(c, p, b, script[k]);
    if Retriable(o) && k + 1 < |script| then
      var rest := Invoke(c, p, b1, script, k + 1);
      rest.(sleeps := [Sleep(p, k, script[k].jitter)] + rest.sleeps)
    else Invocation(b1, o, k + 1, [])
  }

  // ---------- the loop ----------

  method CallBreaker(breaker: CircuitBreaker, r: Reply) returns (o: Outcome)
    modifies breaker
    ensures (breaker.View(), o) == Guarded(breaker.config, old(breaker.View()), r)
    ensures var was, c := old(breaker.View()), breaker.config;
            var b := Admit(c, was, r.at);
            if !Decision(c, was, r.at).Admitted? then o == Raised(BreakerOpen) && breaker.View() == b
            else
              match r.ending
              case Value(v) => o == Returned(v) && breaker.View() == OnSuccess(c, b)
              case Error(kind) =>
                o == Raised(Exception(kind)) && breaker.View() == OnException(c, b, kind == Other, r.endAt)
              case TimedOut => o == Raised(Timeout) && breaker.View() == b
              case CallerCancelled => o == Raised(Cancellation) && breaker.View() == b
  {
    var decision := breaker.BeforeCall(r.at);
    if decision != Admitted {
      return Raised(BreakerOpen);
    }
    match r.ending
    case Value(v) =>
      breaker.AfterSuccess();
      o := Returned(v);
    case Error(kind) =>
      breaker.AfterException(kind, r.endAt);
      o := Raised(Exception(kind));
    case TimedOut => o := Raised(Timeout);
    case CallerCancelled => o := Raised(Cancellation);
  }

  /** The body of `_call`. */
  method OnePass(breaker: CircuitBreaker, p: Policy, a: Attempt) returns (o: Outcome)
    modifies breaker
    ensures (breaker.View(), o) == Try(breaker.config, p, old(breaker.View()), a)
    ensures var once := Guarded(breaker.config, old(breaker.View()), a.first);
            (breaker.View(), o) == if p.recall && once.1 == Raised(Exception(TypeError))
                                   then Guarded(breaker.config, once.0, a.second) else once
  {
    o := CallBreaker(breaker, a.first);
    if p.recall && o == Raised(Exception(TypeError)) {
      o := CallBreaker(breaker, a.second);
    }
  }

  /** Whatever has been done so far, plus the passes from number k on, is the whole invocation. */
  ghost predicate Continues(c: Config, p: Policy, b: Breaker, script: seq<Attempt>, k: nat, sleeps: seq<real>,
                            whole: Invocation)
    requires k < |script|
  {
    var rest := Invoke(c, p, b, script, k);
    whole == rest.(sleeps := sleeps + rest.sleeps)
  }

  ghost function Whole(c: Config, p: Policy, b: Breaker, script: seq<Attempt>): (whole: Invocation)
    ensures script != [] ==> whole == Invoke(c, p, b, script, 0) && Continues(c, p, b, script, 0, [], whole)
  {
    if script == [] then Invocation(b, Returned(0), 0, [])
    else
      var whole := Invoke(c, p, b, script, 0);
      assert [] + whole.sleeps == whole.sleeps;
      whole
  }

  lemma PassContinues(c: Config, p: Policy, b: Breaker, script: seq<Attempt>, k: nat, sleeps: seq<real>,
                      whole: Invocation)
    requires k < |script| && Continues(c, p, b, script, k, sleeps, whole)
    ensures var (b1, o) := Try(c, p, b, script[k]);
            if Retriable(o) && k + 1 < |script| then
              Continues(c, p, b1, script, k + 1, sleeps + [Sleep(p, k, script[k].jitter)], whole)
            else whole == Invocation(b1, o, k + 1, sleeps)
  {
    var (b1, o) := Try(c, p, b, script[k]);
    if Retriable(o) && k + 1 < |script| {
      var nap, rest := Sleep(p, k, script[k].jitter), Invoke(c, p, b1, script, k + 1).sleeps;
      assert sleeps + ([nap] + rest) == (sleeps + [nap]) + rest;
    } else {
      assert sleeps + [] == sleeps;
    }
  }

  /** `script` holds what the environment does on each of the max_retries + 1 passes;
      with max_retries negative the loop body never runs and the coroutine returns None. */
  method InvokeWithResilience(breaker: CircuitBreaker, p: Policy, script: seq<Attempt>)
    returns (none: bool, outcome: Outcome, attempts: nat, sleeps: seq<real>)
    modifies breaker
    ensures none <==> script == []
    ensures none ==> breaker.View() == old(breaker.View())
    ensures !none ==>
              Invocation(breaker.View(), outcome, attempts, sleeps)
                == Invoke(breaker.config, p, old(breaker.View()), script, 0)
  {
    hide Nap, Invoke, Try, Guarded;
    outcome, attempts, sleeps := Returned(0), 0, [];
    var power := 1.0;
    ghost var whole := Whole(breaker.config, p, breaker.View(), script);
    while attempts < |script|
      invariant attempts <= |script| && power == Pow2(attempts)
      invariant attempts == |script| ==> script == [] && breaker.View() == old(breaker.View())
      invariant attempts < |script| ==>
                  Continues(breaker.config, p, breaker.View(), script, attempts, sleeps, whole)
    {
      var a := script[attempts];
      PassContinues(breaker.config, p, breaker.View(), script, attempts, sleeps, whole);
      outcome := OnePass(breaker, p, a);
      if !Retriable(outcome) || attempts + 1 == |script| {
        return false, outcome, attempts + 1, sleeps;
      }
      sleeps := sleeps + [Nap(p, power, a.jitter)];
      attempts, power := attempts + 1, 2.0 * power;
    }
    none := true;
  }

  // ---------- properties ----------

  /** A pass that ends in an exception, transient or permanent, or by the timeout is followed by
      the next one, after the capped exponential delay; the invocation is then that of the rest. */
  lemma FailedPassGoesOn(c: Config, p: Policy, b: Breaker, script: seq<Attempt>, k: nat)
    requires k + 1 < |script|
    requires var o := Try(c, p, b, script[k]).1; o == Raised(Timeout) || (o.Raised? && o.failure.Exception?)
    ensures var r := Invoke(c, p, b, script, k);
            var rest := Invoke(c, p, Try(c, p, b, script[k]).0, script, k + 1);
            var delay := p.baseDelay * Pow2(k);
            && r.outcome == rest.outcome && r.b == rest.b && r.attempts == rest.attempts
            && |r.sleeps| == |rest.sleeps| + 1 && r.sleeps[1..] == rest.sleeps
            && (delay < p.maxDelay ==> r.sleeps[0] == delay * script[k].jitter)
            && (delay >= p.maxDelay ==> r.sleeps[0] == p.maxDelay * script[k].jitter)
  {
    var delay := p.baseDelay * Pow2(k);
    assert Sleep(p, k, script[k].jitter) == Capped(p, delay) * script[k].jitter;
  }

  /** A value, a rejection by the breaker and a cancellation end the invocation at once, and the
      last pass ends it in any case, with whatever it gave. */
  lemma OtherPassEnds(c: Config, p: Policy, b: Breaker, script: seq<Attempt>, k: nat)
    requires k < |script|
    requires var o := Try(c, p, b, script[k]).1;
             o.Returned? || o == Raised(BreakerOpen) || o == Raised(Cancellation) || k + 1 == |script|
    ensures Invoke(c, p, b, script, k)
         == Invocation(Try(c, p, b, script[k]).0, Try(c, p, b, script[k]).1, k + 1, [])
  {
  }

  /** Pass i is the first from k on that does not fail retriably, and it yields v. */
  ghost predicate YieldsFirst(c: Config, p: Policy, b: Breaker, script: seq<Attempt>, k: nat, i: nat, v: int)
    requires k <= i < |script|
    decreases i - k
  {
    var (b1, o) := Try(c, p, b, script[k]);
    if k == i then o == Returned(v)
    else (o == Raised(Timeout) || (o.Raised? && o.failure.Exception?)) && YieldsFirst(c, p, b1, script, k + 1, i, v)
  }

  /** So a value is returned if some pass allowed yields one and all before it failed by an
      exception or the timeout. */
  lemma {:induction false} FirstValueIsReturned(c: Config, p: Policy, b: Breaker, script: seq<Attempt>,
                                                k: nat, i: nat, v: int)
    requires k <= i < |script| && YieldsFirst(c, p, b, script, k, i, v)
    ensures Invoke(c, p, b, script, k).outcome == Returned(v) && Invoke(c, p, b, script, k).attempts == i + 1
    decreases i - k
  {
    if k == i {
      OtherPassEnds(c, p, b, script, k);
    } else {
      FailedPassGoesOn(c, p, b, script, k);
      FirstValueIsReturned(c, p, Try(c, p, b, script[k]).0, script, k + 1, i, v);
    }
  }

  /** The loop stops at the first pass that is final or at the last one, sleeps once between
      passes, and every sleep is within its jitter of the capped exponential delay. */
  lemma {:induction false} LoopShape(c: Config, p: Policy, b: Breaker, script: seq<Attempt>, k: nat)
    requires k < |script| && p.maxDelay >= 0.0 && p.baseDelay >= 0.0
    requires forall i | 0 <= i < |script| :: 0.85 <= script[i].jitter <= 1.15
    ensures var r := Invoke(c, p, b, script, k);
            && k < r.attempts <= |script|
            && (Retriable(r.outcome) ==> r.attempts == |script|)
            && |r.sleeps| == r.attempts - k - 1
            && (forall i | 0 <= i < |r.sleeps| ::
                  0.85 * Sleep(p, k + i, 1.0) <= r.sleeps[i] <= 1.15 * p.maxDelay)
    decreases |script| - k
  {
    var (b1, o) := Try(c, p, b, script[k]);
    if Retriable(o) && k + 1 < |script| {
      LoopShape(c, p, b1, script, k + 1);
      var rest := Invoke(c, p, b1, script, k + 1).sleeps;
      var sleeps := Invoke(c, p, b, script, k).sleeps;
      assert sleeps == [Sleep(p, k, script[k].jitter)] + rest;
      SleepBounds(p, k, script[k].jitter);
      forall i | 0 <= i < |sleeps|
        ensures 0.85 * Sleep(p, k + i, 1.0) <= sleeps[i] <= 1.15 * p.maxDelay
      {
        if i > 0 {
          assert sleeps[i] == rest[i - 1];
          assert k + 1 + (i - 1) == k + i;
        }
      }
    }
  }

  /** A value is returned only if some call of the last pass produced it. */
  lemma {:induction false} AnswerIsReal(c: Config, p: Policy, b: Breaker, script: seq<Attempt>, k: nat)
    requires k < |script| && Invoke(c, p, b, script, k).outcome.Returned?
    ensures k < Invoke(c, p, b, script, k).attempts <= |script|
    ensures var r := Invoke(c, p, b, script, k);
            var last := script[r.attempts - 1];
            last.first.ending == Value(r.outcome.v) || (p.recall && last.second.ending == Value(r.outcome.v))
    decreases |script| - k
  {
    var (b1, o) := Try(c, p, b, script[k]);
    if Retriable(o) && k + 1 < |script| {
      AnswerIsReal(c, p, b1, script, k + 1);
    }
  }

  lemma Scale(d: real, low: real, x: real, high: real)
    requires d >= 0.0 && low <= x <= high
    ensures d * low <= d * x <= d * high
  {
  }

  lemma SleepBounds(p: Policy, k: nat, jitter: real)
    requires p.maxDelay >= 0.0 && p.baseDelay >= 0.0 && 0.85 <= jitter <= 1.15
    ensures 0.85 * Sleep(p, k, 1.0) <= Sleep(p, k, jitter) <= 1.15 * p.maxDelay
  {
    Pow2Monotone(0, k);
    var d := Capped(p, p.baseDelay * Pow2(k));
    Scale(p.baseDelay, 0.0, Pow2(k), Pow2(k));
    Scale(d, 0.85, jitter, 1.15);
    assert Sleep(p, k, 1.0) == d;
    assert Sleep(p, k, jitter) == d * jitter;
  }

  /** Every pass ends by the outer timeout. */
  ghost predicate AllTimeOut(script: seq<Attempt>) {
    forall i | 0 <= i < |script| :: script[i].first.ending.TimedOut?
  }

  /** Whatever the mode, an invocation that only times out leaves the failure counter as it
      was and never opens the breaker. */
  lemma {:induction false} TimeoutsAreInvisible(c: Config, p: Policy, b: Breaker, script: seq<Attempt>, k: nat)
    requires k < |script| && AllTimeOut(script)
    ensures var r := Invoke(c, p, b, script, k);
            && r.b.failures == b.failures && r.b.lastFailure == b.lastFailure
            && (r.b.mode == b.mode || (b.mode.Open? && r.b.mode.HalfOpen?))
            && (b.mode.Closed? ==> r.b == b)
    decreases |script| - k
  {
    var (b1, o) := Try(c, p, b, script[k]);
    if Retriable(o) && k + 1 < |script| {
      TimeoutsAreInvisible(c, p, b1, script, k + 1);
    }
  }

  // ---------- the driver as a run of the breaker ----------

  /** The script's clock never runs backwards. */
  ghost predicate Timely(script: seq<Attempt>, k: nat, clock: real)
    requires k <= |script|
    decreases |script| - k
  {
    k == |script| ||
    var a := script[k];
    clock <= a.first.at <= a.first.endAt <= a.second.at <= a.second.endAt && Timely(script, k + 1, a.second.endAt)
  }

  lemma TimelyLater(script: seq<Attempt>, k: nat, t: real, u: real)
    requires k < |script| && Timely(script, k, t) && u <= script[k].first.at
    ensures Timely(script, k, u)
  {
  }

  /** How the call ends inside the breaker. */
  function EndEvent(r: Reply, id: CallId): Event {
    match r.ending
    case Value(_) => Succeeds(id)
    case Error(k) => Fails(id, IsTransient(k), r.endAt)
    case TimedOut => Cancelled(id)
    case CallerCancelled => Cancelled(id)
  }

  lemma AdmittedCall(c: Config, s: Sys, r: Reply, id: CallId)
    requires id !in s.calls && s.clock <= r.at
    ensures var t := Next(c, s, Call(id, r.at));
            && t.b == Admit(c, s.b, r.at) && t.clock == r.at
            && if Decision(c, s.b, r.at).Admitted? then id in t.calls && t.calls - {id} == s.calls
               else t.calls == s.calls
  {
  }

  lemma EndedCall(c: Config, s: Sys, r: Reply, id: CallId)
    requires id in s.calls && s.clock <= r.endAt
    ensures Enabled(s, EndEvent(r, id))
    ensures var t := Next(c, s, EndEvent(r, id)); t.calls == s.calls - {id} && t.clock <= r.endAt
  {
  }

  lemma GuardedIsRun(c: Config, s: Sys, r: Reply, id: CallId) returns (run: seq<Event>)
    requires id !in s.calls && s.clock <= r.at <= r.endAt
    ensures Valid(c, s, run)
    ensures After(c, s, run).b == Guarded(c, s.b, r).0
    ensures After(c, s, run).calls == s.calls && After(c, s, run).clock <= r.endAt
  {
    hide Valid, After;
    var call := Call(id, r.at);
    assert [] + [call] == [call];
    Starts(c, s);
    Extend(c, s, [], call);
    run := [call];
    AdmittedCall(c, s, r, id);
    if Decision(c, s.b, r.at).Admitted? {
      EndedCall(c, After(c, s, run), r, id);
      Extend(c, s, run, EndEvent(r, id));
      run := run + [EndEvent(r, id)];
    }
  }

  lemma Starts(c: Config, s: Sys)
    ensures Valid(c, s, []) && After(c, s, []) == s
  {
  }

  /** Every invocation is a run of its breaker that leaves no call in flight, so the theorems
      about runs hold for the driver. */
  lemma {:induction false} InvokeIsRun(c: Config, p: Policy, s: Sys, script: seq<Attempt>, k: nat, id: CallId)
      returns (run: seq<Event>)
    requires k < |script| && id !in s.calls && Timely(script, k, s.clock)
    ensures Valid(c, s, run)
    ensures After(c, s, run).b == Invoke(c, p, s.b, script, k).b && After(c, s, run).calls == s.calls
    decreases |script| - k
  {
    var a := script[k];
    run := GuardedIsRun(c, s, a.first, id);
    var s1 := After(c, s, run);
    if p.recall && Guarded(c, s.b, a.first).1 == Raised(Exception(TypeError)) {
      var again := GuardedIsRun(c, s1, a.second, id);
      RunConcat(c, s, run, again);
      run := run + again;
    }
    var (b1, o) := Try(c, p, s.b, a);
    var s2 := After(c, s, run);
    if Retriable(o) && k + 1 < |script| {
      TimelyLater(script, k + 1, a.second.endAt, s2.clock);
      var rest := InvokeIsRun(c, p, s2, script, k + 1, id);
      RunConcat(c, s, run, rest);
      run := run + rest;
    }
  }

  /** In HALF_OPEN each timed-out pass keeps one slot; the pass that finds none is rejected. */
  lemma {:induction false} TimeoutsLeak(c: Config, p: Policy, b: Breaker, script: seq<Attempt>, k: nat)
    requires k < |script| && AllTimeOut(script)
    requires b.mode.HalfOpen? && 0 <= b.trials <= c.maxTrials
    ensures Invoke(c, p, b, script, k).b
         == b.(trials := if b.trials + (|script| - k) < c.maxTrials then b.trials + (|script| - k) else c.maxTrials)
    decreases |script| - k
  {
    var (b1, o) := Try(c, p, b, script[k]);
    if Retriable(o) && k + 1 < |script| {
      TimeoutsLeak(c, p, b1, script, k + 1);
    }
  }

  /** One invocation that times out on every pass, made when an idle open breaker has cooled
      down and allowing as many passes as there are trial slots, shuts the dependency off for
      good: until a manual reset every later call is rejected, however healthy it is by then.
      With the limits of the source (one slot, one retry) any such invocation does it. */
  lemma TimedOutProbeWedges(c: Config, p: Policy, before: seq<Event>, script: seq<Attempt>)
    requires Valid(c, START, before)
    requires var s := After(c, START, before);
             && s.b.mode.Open? && s.calls == map[]
             && script != [] && Timely(script, 0, s.clock) && CooledDown(c, s.b, script[0].first.at)
    requires AllTimeOut(script) && 1 <= c.maxTrials <= |script|
    ensures exists run :: Valid(c, START, before + run) &&
              var t := After(c, START, before + run);
              t.b == Invoke(c, p, After(c, START, before).b, script, 0).b && Wedged(c, t)
  {
    var s := After(c, START, before);
    var run := InvokeIsRun(c, p, s, script, 0, 0);
    RunConcat(c, START, before, run);
    var t := After(c, START, before + run);
    ReachableInv(c, before + run);
    var (b1, o) := Try(c, p, s.b, script[0]);
    if 1 < |script| {
      TimeoutsLeak(c, p, b1, script, 1);
    }
    assert SlotsLeaked(c, t) && BeyondRecovery(c, t);
    WedgedIff(c, t);
  }
}
