/** What holds of a breaker over every run from a new breaker. */
module BreakerTheorems {
  import opened Numbers
  import opened BreakerModel
  import opened BreakerRuns

  // ---------- half-open trials ----------

  /** Calls from other epochs that complete in HALF_OPEN give back slots they never took, and
      cancelled trials keep theirs; these two counts bound the damage exactly. */
  lemma TrialBound(c: Config, run: seq<Event>)
    requires Valid(c, START, run)
    ensures var s := After(c, START, run);
            s.b.mode.HalfOpen? ==>
              && |Own(s)| <= Max(0, c.maxTrials) + s.strays
              && (s.strays == 0 ==> |Own(s)| <= Max(0, c.maxTrials))
              && (s.strays == s.lost == 0 ==> s.b.trials == |Own(s)|)
  {
    ReachableInv(c, run);
  }

  // The bound is reached for every number of stragglers: the lemmas below build such a run.

  /** `k` calls admitted while CLOSED and still in flight. */
  function Stragglers(k: nat): map<CallId, nat> {
    if k == 0 then map[] else Stragglers(k - 1)[k - 1 := 0]
  }

  lemma {:induction false} StragglerIds(k: nat)
    ensures forall id: CallId :: id in Stragglers(k) <==> id < k
    ensures forall id: CallId :: id < k ==> Stragglers(k)[id] == 0
  {
    if k == 0 {
    } else {
      StragglerIds(k - 1);
    }
  }

  /** A step taken after a run, as one run. */
  lemma Extend(c: Config, s: Sys, run: seq<Event>, e: Event)
    requires Valid(c, s, run) && Enabled(After(c, s, run), e)
    ensures Valid(c, s, run + [e]) && After(c, s, run + [e]) == Next(c, After(c, s, run), e)
  {
    var t := After(c, s, run);
    assert Valid(c, Next(c, t, e), [e][1..]);
    RunConcat(c, s, run, [e]);
  }

  lemma {:induction false} AdmitStragglers(c: Config, k: nat) returns (run: seq<Event>)
    ensures Valid(c, START, run) && After(c, START, run) == START.(calls := Stragglers(k))
  {
    if k == 0 {
      run := [];
    } else {
      run := AdmitStragglers(c, k - 1);
      StragglerIds(k - 1);
      Extend(c, START, run, Call(k - 1, 0.0));
      run := run + [Call(k - 1, 0.0)];
    }
  }

  /** Enough call/transient failure pairs open a closed breaker and leave the calls in flight alone. */
  lemma {:induction false} Trip(c: Config, s: Sys, id: CallId) returns (run: seq<Event>)
    requires s.b.mode.Closed? && id !in s.calls
    ensures Valid(c, s, run)
    ensures var t := After(c, s, run); t.b.mode.Open? && t.calls == s.calls && t.epoch == s.epoch
    decreases Max(0, c.failureThreshold - s.b.failures)
  {
    var s1 := Next(c, s, Call(id, s.clock));
    var s2 := Next(c, s1, Fails(id, true, s.clock));
    assert s2.calls == s.calls;
    run := [];
    if s2.b.mode.Closed? {
      run := Trip(c, s2, id);
    }
    var pair := [Call(id, s.clock)] + [Fails(id, true, s.clock)];
    Extend(c, s, [], Call(id, s.clock));
    assert [] + [Call(id, s.clock)] == [Call(id, s.clock)];
    Extend(c, s, [Call(id, s.clock)], Fails(id, true, s.clock));
    RunConcat(c, s, pair, run);
    run := pair + run;
  }

  lemma AdmitTrial(c: Config, s: Sys, id: CallId)
    requires s.b.mode.HalfOpen? && s.b.trials < c.maxTrials && id !in s.calls
    ensures var t := Next(c, s, Call(id, s.clock));
            && t.b == s.b.(trials := s.b.trials + 1) && t.epoch == s.epoch && t.strays == s.strays && t.clock == s.clock
            && t.calls == s.calls[id := s.epoch] && |Own(t)| == |Own(s)| + 1
  {
    assert Own(Next(c, s, Call(id, s.clock))) == Own(s) + {id};
  }

  /** Fresh calls fill a half-open breaker up to its trial limit. */
  lemma {:induction false} Saturate(c: Config, s: Sys, next: CallId) returns (run: seq<Event>, next': CallId)
    requires s.b.mode.HalfOpen? && 0 <= s.b.trials <= c.maxTrials
    requires forall id | id in s.calls :: id < next
    ensures Valid(c, s, run)
    ensures var t := After(c, s, run);
            && t.b == s.b.(trials := c.maxTrials) && t.epoch == s.epoch && t.strays == s.strays
            && |Own(t)| == |Own(s)| + (c.maxTrials - s.b.trials)
            && (forall id | id in s.calls :: id in t.calls && t.calls[id] == s.calls[id])
            && (forall id | id in t.calls :: id < next')
    decreases c.maxTrials - s.b.trials
  {
    if s.b.trials == c.maxTrials {
      return [], next;
    }
    var e := Call(next, s.clock);
    var t := Next(c, s, e);
    AdmitTrial(c, s, next);
    run, next' := Saturate(c, t, next + 1);
    run := [e] + run;
  }

  /** Each call of another epoch that completes makes room for one trial more. */
  lemma {:induction false} Overrun(c: Config, s: Sys, strays: set<CallId>, next: CallId) returns (run: seq<Event>)
    requires s.b.mode.HalfOpen? && s.b.trials == c.maxTrials >= 1
    requires forall id | id in strays :: id in s.calls && s.calls[id] != s.epoch
    requires forall id | id in s.calls :: id < next
    ensures Valid(c, s, run)
    ensures var t := After(c, s, run);
            && t.b.mode.HalfOpen? && t.epoch == s.epoch
            && t.strays == s.strays + |strays| && |Own(t)| == |Own(s)| + |strays|
    decreases |strays|
  {
    if strays == {} {
      return [];
    }
    var j :| j in strays;
    var done, call := Fails(j, false, s.clock), Call(next, s.clock);
    var s1 := Next(c, s, done);
    var s2 := Next(c, s1, call);
    assert Own(s1) == Own(s);
    assert Own(s2) == Own(s1) + {next};
    run := Overrun(c, s2, strays - {j}, next + 1);
    assert ([done, call] + run)[1..] == [call] + run;
    assert ([call] + run)[1..] == run;
    run := [done, call] + run;
  }

  /** The promise that only maxTrials trials run at once fails by any margin:
      for every k some run has k strays and maxTrials + k trials of one epoch in flight. */
  lemma TrialBoundIsTight(c: Config, k: nat)
    requires c.maxTrials >= 1
    ensures exists run :: Valid(c, START, run) &&
              var s := After(c, START, run);
              s.b.mode.HalfOpen? && s.strays == k && |Own(s)| == c.maxTrials + k
  {
    var probed := ProbeAmongStragglers(c, k);
    var s3 := After(c, START, probed);
    var fill, next := Saturate(c, s3, k + 1);
    RunConcat(c, START, probed, fill);
    var s4 := After(c, s3, fill);
    StragglerIds(k);
    StragglerCount(k);
    var over := Overrun(c, s4, Stragglers(k).Keys, next);
    RunConcat(c, START, probed + fill, over);
  }

  /** A run to the probe of an open breaker, with k calls from its CLOSED time still in flight. */
  lemma ProbeAmongStragglers(c: Config, k: nat) returns (run: seq<Event>)
    requires c.maxTrials >= 1
    ensures Valid(c, START, run)
    ensures var s := After(c, START, run);
            && s.b.mode.HalfOpen? && s.b.trials == 1 && s.epoch == 1 && s.strays == 0
            && s.calls == Stragglers(k)[k := 1] && Own(s) == {k} && forall id | id in s.calls :: id <= k
  {
    StragglerIds(k);
    var admit := AdmitStragglers(c, k);
    var trip := Trip(c, After(c, START, admit), k);
    RunConcat(c, START, admit, trip);
    var s2 := After(c, START, admit + trip);
    ReachableInv(c, admit + trip);
    var later := Call(k, s2.clock + Abs(c.cooldown) + 1.0);
    Extend(c, START, admit + trip, later);
    run := admit + trip + [later];
  }

  lemma {:induction false} StragglerCount(k: nat)
    ensures |Stragglers(k).Keys| == k
  {
    if k == 0 {
    } else {
      StragglerCount(k - 1);
      StragglerIds(k - 1);
      assert Stragglers(k).Keys == Stragglers(k - 1).Keys + {k - 1};
    }
  }

  // The documented limit, exactly.

  /** From s on, as long as the half-open epoch of s lasts, at most maxTrials of its trials are in
      flight at once. */
  ghost predicate LimitKept(c: Config, s: Sys) {
    forall run | Valid(c, s, run) && StaysIn(c, s, run) :: |Own(After(c, s, run))| <= Max(0, c.maxTrials)
  }

  ghost predicate StaysIn(c: Config, s: Sys, run: seq<Event>)
    requires Valid(c, s, run)
  {
    After(c, s, run).b.mode.HalfOpen? && After(c, s, run).epoch == s.epoch
  }

  /** A breaker that leaves HALF_OPEN comes back in a later epoch only. */
  lemma {:induction false} EpochsGrow(c: Config, s: Sys, run: seq<Event>)
    requires Valid(c, s, run)
    ensures After(c, s, run).epoch >= s.epoch
    ensures !s.b.mode.HalfOpen? && After(c, s, run).b.mode.HalfOpen? ==> After(c, s, run).epoch > s.epoch
    decreases |run|
  {
    if run == [] {
    } else {
      EpochsGrow(c, Next(c, s, run[0]), run[1..]);
    }
  }

  /** Every call in flight has a slot; where no trials are allowed, the epoch has none. */
  ghost predicate AllSeated(c: Config, s: Sys) {
    && s.b.mode.HalfOpen? && 0 <= s.b.trials <= Max(0, c.maxTrials)
    && if c.maxTrials >= 1 then |s.calls| <= s.b.trials else Own(s) == {}
  }

  lemma SeatsCall(c: Config, s: Sys, id: CallId, now: real)
    requires AllSeated(c, s) && Enabled(s, Call(id, now))
    ensures AllSeated(c, Next(c, s, Call(id, now)))
  {
    var t := Next(c, s, Call(id, now));
    if Decision(c, s.b, now).Admitted? {
      assert t.calls.Keys == s.calls.Keys + {id};
      assert |s.calls| == |s.calls.Keys| && |t.calls| == |t.calls.Keys|;
    } else {
      assert Own(t) == Own(s);
    }
  }

  lemma SeatsEnd(c: Config, s: Sys, e: Event)
    requires AllSeated(c, s) && Enabled(s, e) && !e.Call? && !e.Reset? && Next(c, s, e).b.mode.HalfOpen?
    ensures AllSeated(c, Next(c, s, e))
  {
    var t := Next(c, s, e);
    assert t.calls.Keys == s.calls.Keys - {e.id};
    assert |s.calls| == |s.calls.Keys| && |t.calls| == |t.calls.Keys|;
    assert Own(t) <= Own(s);
  }

  lemma {:induction false} SeatedKeepsLimit(c: Config, s: Sys, run: seq<Event>)
    requires AllSeated(c, s) && Valid(c, s, run) && StaysIn(c, s, run)
    ensures |Own(After(c, s, run))| <= Max(0, c.maxTrials)
    decreases |run|
  {
    if run == [] {
      assert Own(s) <= s.calls.Keys;
      assert s.calls.Keys == Own(s) + (s.calls.Keys - Own(s));
      assert |s.calls| == |s.calls.Keys|;
    } else {
      var n := Next(c, s, run[0]);
      EpochsGrow(c, n, run[1..]);
      if n.b.mode.HalfOpen? {
        if run[0].Call? {
          SeatsCall(c, s, run[0].id, run[0].now);
        } else {
          SeatsEnd(c, s, run[0]);
        }
        SeatedKeepsLimit(c, n, run[1..]);
      }
    }
  }

  /** With more calls in flight than slots taken, the rest are strays that make room. */
  lemma UnseatedBreaksLimit(c: Config, s: Sys)
    requires s.b.mode.HalfOpen? && 0 <= s.b.trials <= c.maxTrials && c.maxTrials >= 1
    requires |s.calls| > s.b.trials
    ensures !LimitKept(c, s)
  {
    var next := FreshId(s.calls.Keys);
    var strays := s.calls.Keys - Own(s);
    assert s.calls.Keys == Own(s) + strays;
    assert |s.calls| == |s.calls.Keys|;
    var fill, next' := Saturate(c, s, next);
    var t := After(c, s, fill);
    var over := Overrun(c, t, strays, next');
    RunConcat(c, s, fill, over);
    assert StaysIn(c, s, fill + over);
  }

  /** The documented limit of trials holds for the rest of a half-open epoch exactly if no more
      calls are in flight than slots are taken. */
  lemma TrialLimitIff(c: Config, s: Sys)
    requires Inv(c, s) && s.b.mode.HalfOpen? && c.maxTrials >= 1
    ensures LimitKept(c, s) <==> |s.calls| <= s.b.trials
  {
    if |s.calls| <= s.b.trials {
      forall run | Valid(c, s, run) && StaysIn(c, s, run) ensures |Own(After(c, s, run))| <= Max(0, c.maxTrials) {
        SeatedKeepsLimit(c, s, run);
      }
    } else {
      UnseatedBreaksLimit(c, s);
    }
  }

  /** So it holds throughout an epoch exactly if nothing was in flight when the breaker probed
      (or no trials are allowed at all). */
  lemma ProbeLimitIff(c: Config, s: Sys, id: CallId, now: real)
    requires Inv(c, s) && Enabled(s, Call(id, now)) && CooledDown(c, s.b, now)
    ensures LimitKept(c, Next(c, s, Call(id, now))) <==> s.calls == map[] || c.maxTrials < 1
  {
    var t := Next(c, s, Call(id, now));
    StepKeepsInv(c, s, Call(id, now));
    if c.maxTrials >= 1 {
      TrialLimitIff(c, t);
      assert t.calls.Keys == s.calls.Keys + {id};
      assert |t.calls| == |t.calls.Keys| && |s.calls| == |s.calls.Keys|;
    } else {
      assert forall i | i in s.calls :: s.calls[i] <= s.epoch;
      assert Own(t) == {};
      forall run | Valid(c, t, run) && StaysIn(c, t, run) ensures |Own(After(c, t, run))| <= Max(0, c.maxTrials) {
        SeatedKeepsLimit(c, t, run);
      }
    }
  }

  function Abs(x: real): real {
    if x >= 0.0 then x else -x
  }

  // ---------- tripping ----------

  /** While CLOSED the counter is the largest excess of failures over successes of any suffix
      of the outcomes since the breaker last closed, and one more failure opens the breaker
      exactly when some suffix then reaches the threshold. */
  lemma TripsOnSuffix(c: Config, run: seq<Event>, id: CallId, now: real)
    requires Valid(c, START, run)
    requires var s := After(c, START, run); s.b.mode.Closed? && Enabled(s, Fails(id, true, now))
    ensures var s := After(c, START, run);
            && IsMaxSuffix(s.outcomes, s.b.failures)
            && var h := s.outcomes + [1];
               (Next(c, s, Fails(id, true, now)).b.mode.Open? <==>
                  exists i: nat :: i <= |h| && Net(h, i) >= c.failureThreshold)
  {
    ReachableInv(c, run);
    var s := After(c, START, run);
    MaxSuffixAppend(s.outcomes, s.b.failures, 1);
    var h := s.outcomes + [1];
    assert Max(0, s.b.failures + 1) == s.b.failures + 1;
    var peak: nat :| peak <= |h| && Net(h, peak) == s.b.failures + 1;
    assert Next(c, s, Fails(id, true, now)).b.mode.Open? <==> Net(h, peak) >= c.failureThreshold;
    assert forall i: nat :: i <= |h| ==> Net(h, i) <= Net(h, peak);
  }

  /** How each mode can be left, in any reachable state. */
  lemma ModeChanges(c: Config, run: seq<Event>, e: Event)
    requires Valid(c, START, run) && Enabled(After(c, START, run), e)
    ensures var s, t := After(c, START, run), Next(c, After(c, START, run), e);
            && CounterInv(c, s.b)
            && (s.b.mode.Closed? ==>
                  !t.b.mode.HalfOpen? && (t.b.mode.Open? ==> e.Fails? && e.transient))
            && (s.b.mode.Open? ==>
                  (t.b.mode.HalfOpen? <==> e.Call? && e.now - s.lastTransient > c.cooldown) &&
                  (t.b.mode.Closed? <==> e.Succeeds? || e.Reset?))
            && (s.b.mode.HalfOpen? ==>
                  (t.b.mode.Open? <==> e.Fails? && e.transient) &&
                  (t.b.mode.Closed? <==> e.Reset? || (e.Succeeds? && s.b.successes + 1 >= c.successThreshold)))
  {
    ReachableInv(c, run);
  }

  /** Only errors of the six classes that stand for bugs and bad input are spared. */
  lemma OnlyBugsArePermanent(c: Config, b: Breaker, e: ErrorKind, now: real)
    ensures e in {ValueError, TypeError, KeyError, IndexError, AttributeError, AssertionError} ==>
              OnException(c, b, IsTransient(e), now).failures == b.failures &&
              OnException(c, b, IsTransient(e), now).mode == b.mode
    ensures e == Other ==>
              OnException(c, b, IsTransient(e), now).failures == b.failures + 1 &&
              OnException(c, b, IsTransient(e), now).lastFailure == now
  {
  }

  /** A rejected caller of an OPEN breaker is told the wait after which, and not before which,
      the breaker probes again. */
  lemma RetryAfterIsExact(c: Config, s: Sys, now: real, later: real)
    requires Decision(c, s.b, now).RejectedOpen? && later >= now
    ensures Decision(c, s.b, now).retryAfter >= 0.0
    ensures CooledDown(c, s.b, later) <==> later - now > Decision(c, s.b, now).retryAfter
  {
  }

  // ---------- closing ----------

  /** Calls of the run that succeed. */
  function Successes(run: seq<Event>): nat {
    if run == [] then 0 else (if run[0].Succeeds? then 1 else 0) + Successes(run[1..])
  }

  /** While a half-open epoch lasts its successes are counted, whoever the calls are, and the next
      one closes the breaker exactly if it makes the count of the epoch reach the threshold. */
  lemma {:induction false} SuccessesAddUp(c: Config, s: Sys, run: seq<Event>)
    requires s.b.mode.HalfOpen? && Valid(c, s, run) && StaysIn(c, s, run)
    ensures After(c, s, run).b.successes == s.b.successes + Successes(run)
    decreases |run|
  {
    if run == [] {
    } else {
      EpochsGrow(c, Next(c, s, run[0]), run[1..]);
      SuccessesAddUp(c, Next(c, s, run[0]), run[1..]);
    }
  }

  lemma ClosesOnSuccesses(c: Config, s: Sys, id: CallId, now: real, run: seq<Event>, last: CallId)
    requires Enabled(s, Call(id, now)) && CooledDown(c, s.b, now)
    requires var p := Next(c, s, Call(id, now));
             Valid(c, p, run) && StaysIn(c, p, run) && Enabled(After(c, p, run), Succeeds(last))
    ensures var p := Next(c, s, Call(id, now));
            var t := Next(c, After(c, p, run), Succeeds(last));
            && (t.b.mode.Closed? <==> Successes(run) + 1 >= c.successThreshold)
            && (!t.b.mode.Closed? ==> t.b.mode.HalfOpen?)
            && (t.b.mode.Closed? ==> t.b.failures == t.b.successes == 0)
  {
    SuccessesAddUp(c, Next(c, s, Call(id, now)), run);
  }

  // ---------- cancellation ----------

  ghost predicate NoTransientFailure(run: seq<Event>) {
    forall i | 0 <= i < |run| :: !(run[i].Fails? && run[i].transient)
  }

  /** Calls that end only by cancellation, success or a permanent error never open a breaker,
      nor do they raise its failure count. */
  lemma {:induction false} TimeoutsNeverTrip(c: Config, s: Sys, run: seq<Event>)
    requires s.b.mode.Closed?
    requires Valid(c, s, run) && NoTransientFailure(run)
    ensures After(c, s, run).b.mode.Closed? && After(c, s, run).b.failures <= Max(0, s.b.failures)
    decreases |run|
  {
    if run == [] {
    } else {
      TimeoutsNeverTrip(c, Next(c, s, run[0]), run[1..]);
    }
  }

  ghost predicate NoReset(run: seq<Event>) {
    forall i | 0 <= i < |run| :: !run[i].Reset?
  }

  /** No call event of the run is admitted. */
  ghost predicate AllRejected(c: Config, s: Sys, run: seq<Event>)
    requires Valid(c, s, run)
    decreases |run|
  {
    run == [] ||
    ((run[0].Call? ==> !Decision(c, s.b, run[0].now).Admitted?) && AllRejected(c, Next(c, s, run[0]), run[1..]))
  }

  /** Every future without a reset rejects every call. */
  ghost predicate Wedged(c: Config, s: Sys) {
    forall run :: Valid(c, s, run) && NoReset(run) ==> AllRejected(c, s, run)
  }

  /** All trial slots taken and nobody in flight to give one back. */
  predicate SlotsLeaked(c: Config, s: Sys) {
    s.b.mode.HalfOpen? && s.b.trials >= c.maxTrials && s.calls == map[]
  }

  /** A breaker that allows no trials at all is left to the calls that were in flight when it
      opened; here they are too few to close it again. */
  predicate TooFewToClose(c: Config, s: Sys) {
    && c.maxTrials < 1 && !s.b.mode.Closed?
    && (s.calls == map[] ||
        (s.b.mode.HalfOpen? && |s.calls| == 1 && s.b.successes + 1 < c.successThreshold))
  }

  predicate BeyondRecovery(c: Config, s: Sys) {
    SlotsLeaked(c, s) || TooFewToClose(c, s)
  }

  lemma HopelessStep(c: Config, s: Sys, e: Event)
    requires CounterInv(c, s.b) && BeyondRecovery(c, s) && Enabled(s, e) && !e.Reset?
    ensures e.Call? ==> !Decision(c, s.b, e.now).Admitted?
    ensures BeyondRecovery(c, Next(c, s, e))
  {
    if !e.Call? {
      assert e.id in s.calls && s.calls != map[];
      LastCall(s.calls, e.id);
    }
  }

  /** The only call in flight leaves none behind. */
  lemma LastCall(calls: map<CallId, nat>, id: CallId)
    requires id in calls && |calls| == 1
    ensures calls - {id} == map[]
  {
    assert |calls.Keys - {id}| == 0;
    assert (calls - {id}).Keys == calls.Keys - {id};
  }

  lemma {:induction false} HopelessRejects(c: Config, s: Sys, run: seq<Event>)
    requires CounterInv(c, s.b) && BeyondRecovery(c, s) && Valid(c, s, run) && NoReset(run)
    ensures AllRejected(c, s, run)
    decreases |run|
  {
    if run == [] {
    } else {
      HopelessStep(c, s, run[0]);
      StepKeepsCounters(c, s, run[0]);
      HopelessRejects(c, Next(c, s, run[0]), run[1..]);
    }
  }

  /** A future in which some call is let in. */
  lemma Rescue(c: Config, s: Sys, run: seq<Event>, e: Event)
    requires Valid(c, s, run) && NoReset(run + [e]) && e.Call? && Enabled(After(c, s, run), e)
    requires Decision(c, After(c, s, run).b, e.now).Admitted?
    ensures !Wedged(c, s)
  {
    Extend(c, s, run, e);
    if Wedged(c, s) {
      RejectedSplits(c, s, run, e);
    }
  }

  lemma {:induction false} RejectedSplits(c: Config, s: Sys, run: seq<Event>, e: Event)
    requires Valid(c, s, run) && Valid(c, s, run + [e]) && Enabled(After(c, s, run), e)
    requires AllRejected(c, s, run + [e])
    ensures e.Call? ==> !Decision(c, After(c, s, run).b, e.now).Admitted?
    decreases |run|
  {
    if run == [] {
      assert run + [e] == [e];
    } else {
      assert (run + [e])[1..] == run[1..] + [e];
      RejectedSplits(c, Next(c, s, run[0]), run[1..], e);
    }
  }

  /** A single event after which a call is let in. */
  lemma RescueBy(c: Config, s: Sys, e: Event, id: CallId)
    requires Enabled(s, e) && !e.Call? && !e.Reset? && id !in Next(c, s, e).calls
    requires Decision(c, Next(c, s, e).b, Next(c, s, e).clock).Admitted?
    ensures !Wedged(c, s)
  {
    Extend(c, s, [], e);
    assert [] + [e] == [e];
    Rescue(c, s, [e], Call(id, Next(c, s, e).clock));
  }

  /** Two calls in flight reopen a breaker without trials: one fails, then one succeeds late. */
  lemma RescueByTwo(c: Config, s: Sys, first: CallId, second: CallId)
    requires s.b.mode.HalfOpen? && first in s.calls && second in s.calls && first != second
    ensures !Wedged(c, s)
  {
    var fails, succeeds := Fails(first, true, s.clock), Succeeds(second);
    Extend(c, s, [], fails);
    assert [] + [fails] == [fails];
    Extend(c, s, [fails], succeeds);
    assert After(c, s, [fails] + [succeeds]).b.mode.Closed?;
    Rescue(c, s, [fails] + [succeeds], Call(first, s.clock));
  }

  /** In any reachable state: nothing but a reset helps exactly when the slots have leaked or, if
      no trials are allowed at all, too few calls are in flight to close the breaker. */
  lemma WedgedIff(c: Config, s: Sys)
    requires Inv(c, s)
    ensures Wedged(c, s) <==> BeyondRecovery(c, s)
  {
    var unused := FreshId(s.calls.Keys);
    if BeyondRecovery(c, s) {
      forall run | Valid(c, s, run) && NoReset(run) ensures AllRejected(c, s, run) {
        HopelessRejects(c, s, run);
      }
    } else if s.b.mode.Closed? || (c.maxTrials >= 1 && (s.b.mode.Open? || s.b.trials < c.maxTrials)) {
      Rescue(c, s, [], Call(unused, s.clock + Abs(c.cooldown) + 1.0));
    } else {
      var id :| id in s.calls;
      if c.maxTrials >= 1 {
        RescueBy(c, s, Fails(id, false, s.clock), id);
      } else if s.b.mode.Open? || s.b.successes + 1 >= c.successThreshold {
        RescueBy(c, s, Succeeds(id), id);
      } else {
        var other := OtherCall(s.calls, id);
        RescueByTwo(c, s, id, other);
      }
    }
  }

  lemma OtherCall(calls: map<CallId, nat>, id: CallId) returns (other: CallId)
    requires id in calls && |calls| != 1
    ensures other in calls && other != id
  {
    assert calls.Keys == (calls.Keys - {id}) + {id};
    assert |calls.Keys| == |calls|;
    other :| other in calls.Keys - {id};
  }

  lemma {:induction false} FreshId(ids: set<CallId>) returns (id: CallId)
    ensures forall j | j in ids :: j < id
    decreases |ids|
  {
    if ids == {} {
      return 0;
    }
    var i :| i in ids;
    var rest := FreshId(ids - {i});
    assert ids == (ids - {i}) + {i};
    id := if rest > i then rest else i + 1;
  }
}
