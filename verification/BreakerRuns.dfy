/** Whole runs of one breaker with any number of overlapping calls.  A run is a sequence of
    atomic events; beside the breaker the state keeps which calls are in flight, each tagged
    with the half-open epoch that admitted it (0: admitted while CLOSED), and what the
    theorems measure. */
module BreakerRuns {
  import opened Numbers
  import opened BreakerModel

  type CallId = nat

  datatype Event =
    | Call(id: CallId, now: real)
    | Fails(id: CallId, transient: bool, now: real)
    | Succeeds(id: CallId)
    | Cancelled(id: CallId)  // CancelledError is no Exception: no completion segment runs
    | Reset

  /** strays: calls of other epochs completed during the current half-open epoch.
      lost: own trials cancelled during it.
      outcomes: +1 / -1 per counted failure / success completed since the breaker last closed.
      lastTransient: time of the latest transient failure since the last reset. */
  datatype Sys = Sys(b: Breaker, calls: map<CallId, nat>, epoch: nat, strays: nat, lost: nat,
                     outcomes: seq<int>, clock: real, lastTransient: real)

  const START := Sys(INITIAL, map[], 0, 0, 0, [], 0.0, 0.0)

  predicate Enabled(s: Sys, e: Event) {
    match e
    case Call(id, now) => id !in s.calls && now >= s.clock
    case Fails(id, _, now) => id in s.calls && now >= s.clock
    case Succeeds(id) => id in s.calls
    case Cancelled(id) => id in s.calls
    case Reset => true
  }

  function Next(c: Config, s: Sys, e: Event): Sys
    requires Enabled(s, e)
  {
    match e
    case Call(id, now) =>
      var s0 := s.(b := Admit(c, s.b, now), clock := now);
      var s1 := if CooledDown(c, s.b, now) then s0.(epoch := s.epoch + 1, strays := 0, lost := 0) else s0;
      if Decision(c, s.b, now).Admitted? then
        s1.(calls := s.calls[id := if s1.b.mode.HalfOpen? then s1.epoch else 0])
      else s1
    case Fails(id, transient, now) =>
      var s0 := Completed(s, id).(b := OnException(c, s.b, transient, now), clock := now);
      var s1 := if transient then s0.(lastTransient := now) else s0;
      if transient && s.b.mode.Closed? then s1.(outcomes := s.outcomes + [1]) else s1
    case Succeeds(id) =>
      var s0 := Completed(s, id).(b := OnSuccess(c, s.b));
      if s.b.mode.Closed? then s0.(outcomes := s.outcomes + [-1])
      else if s0.b.mode.Closed? then s0.(outcomes := []) else s0
    case Cancelled(id) =>
      var s0 := s.(calls := s.calls - {id});
      if s.b.mode.HalfOpen? && s.calls[id] == s.epoch then s0.(lost := s.lost + 1) else s0
    case Reset => s.(b := INITIAL, outcomes := [], lastTransient := 0.0)
  }

  function Completed(s: Sys, id: CallId): Sys
    requires id in s.calls
  {
    var s0 := s.(calls := s.calls - {id});
    if s.b.mode.HalfOpen? && s.calls[id] != s.epoch then s0.(strays := s.strays + 1) else s0
  }

  ghost predicate Valid(c: Config, s: Sys, run: seq<Event>)
    decreases |run|
  {
    run == [] || (Enabled(s, run[0]) && Valid(c, Next(c, s, run[0]), run[1..]))
  }

  ghost function After(c: Config, s: Sys, run: seq<Event>): Sys
    requires Valid(c, s, run)
    decreases |run|
  {
    if run == [] then s else After(c, Next(c, s, run[0]), run[1..])
  }

  lemma {:induction false} RunConcat(c: Config, s: Sys, p: seq<Event>, q: seq<Event>)
    requires Valid(c, s, p) && Valid(c, After(c, s, p), q)
    ensures Valid(c, s, p + q) && After(c, s, p + q) == After(c, After(c, s, p), q)
    decreases |p|
  {
    if p == [] {
      assert p + q == q;
    } else {
      RunConcat(c, Next(c, s, p[0]), p[1..], q);
      assert (p + q)[1..] == p[1..] + q;
    }
  }

  /** Trials of the current half-open epoch that are in flight. */
  ghost function Own(s: Sys): set<CallId> {
    set id | id in s.calls && s.calls[id] == s.epoch
  }

  // ---------- the state invariant ----------

  /** Counters of the breaker alone. */
  ghost predicate CounterInv(c: Config, b: Breaker) {
    && 0 <= b.trials <= Max(0, c.maxTrials)
    && (b.mode.Closed? ==> 0 <= b.failures < Max(1, c.failureThreshold))
    && (!b.mode.HalfOpen? ==> b.successes == 0)
    && (b.mode.HalfOpen? ==> 0 <= b.successes < Max(1, c.successThreshold))
  }

  /** The trial counter against the calls really in flight. */
  ghost predicate TrialInv(s: Sys) {
    && (forall id | id in s.calls :: s.calls[id] <= s.epoch)
    && (s.b.mode.HalfOpen? ==>
          && s.epoch >= 1
          && |Own(s)| - s.strays <= s.b.trials <= |Own(s)| + s.lost)
  }

  ghost predicate HistoryInv(s: Sys) {
    && s.b.lastFailure == s.lastTransient <= s.clock && 0.0 <= s.clock
    && (s.b.mode.Closed? ==> IsMaxSuffix(s.outcomes, s.b.failures))
  }

  ghost predicate Inv(c: Config, s: Sys) {
    CounterInv(c, s.b) && TrialInv(s) && HistoryInv(s)
  }

  /** Net(h, i): failures minus successes over the suffix of h from i. */
  ghost function Net(h: seq<int>, i: nat): int
    requires i <= |h|
    decreases |h| - i
  {
    if i == |h| then 0 else h[i] + Net(h, i + 1)
  }

  ghost predicate IsMaxSuffix(h: seq<int>, m: int) {
    && (exists i: nat :: i <= |h| && Net(h, i) == m)
    && (forall i: nat :: i <= |h| ==> Net(h, i) <= m)
  }

  lemma {:induction false} NetAppend(h: seq<int>, x: int, i: nat)
    requires i <= |h|
    ensures Net(h + [x], i) == Net(h, i) + x
    decreases |h| - i
  {
    if i == |h| {
    } else {
      NetAppend(h, x, i + 1);
    }
  }

  /** One more outcome moves the maximal suffix by x, floored at the empty suffix. */
  lemma MaxSuffixAppend(h: seq<int>, m: int, x: int)
    requires IsMaxSuffix(h, m)
    ensures IsMaxSuffix(h + [x], Max(0, m + x))
  {
    var g := h + [x];
    forall i: nat | i <= |h| ensures Net(g, i) == Net(h, i) + x {
      NetAppend(h, x, i);
    }
    assert Net(g, |g|) == 0;
    var k: nat :| k <= |h| && Net(h, k) == m;
    assert Net(g, k) == m + x;
    forall i: nat | i <= |g| ensures Net(g, i) <= Max(0, m + x) {
      if i <= |h| {
        assert Net(h, i) <= m;
      }
    }
  }

  lemma OwnRemove(s: Sys, id: CallId)
    requires id in s.calls
    ensures var t := s.(calls := s.calls - {id});
            |Own(t)| == if s.calls[id] == s.epoch then |Own(s)| - 1 else |Own(s)|
  {
    var t := s.(calls := s.calls - {id});
    if s.calls[id] == s.epoch {
      assert Own(t) == Own(s) - {id};
    } else {
      assert Own(t) == Own(s);
    }
  }

  lemma StepKeepsCounters(c: Config, s: Sys, e: Event)
    requires CounterInv(c, s.b) && Enabled(s, e)
    ensures CounterInv(c, Next(c, s, e).b)
  {
  }

  lemma CallKeepsTrials(c: Config, s: Sys, id: CallId, now: real)
    requires CounterInv(c, s.b) && TrialInv(s) && Enabled(s, Call(id, now))
    ensures TrialInv(Next(c, s, Call(id, now)))
  {
    var t := Next(c, s, Call(id, now));
    var admitted := Decision(c, s.b, now).Admitted?;
    if CooledDown(c, s.b, now) {
      assert forall i | i in s.calls :: s.calls[i] != t.epoch;
      assert Own(t) == if admitted then {id} else {};
    } else if s.b.mode.HalfOpen? {
      assert Own(t) == if admitted then Own(s) + {id} else Own(s);
    }
  }

  lemma EndKeepsTrials(c: Config, s: Sys, e: Event)
    requires CounterInv(c, s.b) && TrialInv(s) && Enabled(s, e) && !e.Call?
    ensures TrialInv(Next(c, s, e))
  {
    if !e.Reset? {
      OwnRemove(s, e.id);
      assert Own(Next(c, s, e)) == Own(s.(calls := s.calls - {e.id}));
      assert s.calls[e.id] == s.epoch ==> e.id in Own(s);
    }
  }

  lemma StepKeepsHistory(c: Config, s: Sys, e: Event)
    requires CounterInv(c, s.b) && HistoryInv(s) && Enabled(s, e)
    ensures HistoryInv(Next(c, s, e))
  {
    assert Net([], 0) == 0;
    assert IsMaxSuffix([], 0);
    if s.b.mode.Closed? {
      MaxSuffixAppend(s.outcomes, s.b.failures, 1);
      MaxSuffixAppend(s.outcomes, s.b.failures, -1);
    }
  }

  lemma StepKeepsInv(c: Config, s: Sys, e: Event)
    requires Inv(c, s) && Enabled(s, e)
    ensures Inv(c, Next(c, s, e))
  {
    StepKeepsCounters(c, s, e);
    if e.Call? {
      CallKeepsTrials(c, s, e.id, e.now);
    } else {
      EndKeepsTrials(c, s, e);
    }
    StepKeepsHistory(c, s, e);
  }

  lemma StartInv(c: Config)
    ensures Inv(c, START)
  {
    assert Net([], 0) == 0;
  }

  lemma {:induction false} RunKeepsInv(c: Config, s: Sys, run: seq<Event>)
    requires Inv(c, s) && Valid(c, s, run)
    ensures Inv(c, After(c, s, run))
    decreases |run|
  {
    if run == [] {
    } else {
      StepKeepsInv(c, s, run[0]);
      RunKeepsInv(c, Next(c, s, run[0]), run[1..]);
    }
  }

  lemma ReachableInv(c: Config, run: seq<Event>)
    requires Valid(c, START, run)
    ensures Inv(c, After(c, START, run))
  {
    StartInv(c);
    RunKeepsInv(c, START, run);
  }
}
