/** Cache coherence of the manager and the time bound of its backoff, over whole runs. */
module McpTheorems {
  import opened Numbers
  import opened McpModel

  // ---------- coherence ----------

  ghost predicate Coherent(m: Manager) {
    forall k | k in m.tools :: k.server in m.sessions && Failures(m, k.server) == 0
  }

  lemma {:induction false} CachedToolsAreLive(run: seq<Event>)
    ensures Coherent(After(INITIAL, run))
  {
    if run == [] {
    } else {
      CachedToolsAreLive(run[..|run| - 1]);
      StepKeepsCoherent(After(INITIAL, run[..|run| - 1]), run[|run| - 1]);
    }
  }

  lemma StepKeepsCoherent(m: Manager, e: Event)
    requires Coherent(m)
    ensures Coherent(Next(m, e))
  {
  }

  /** A load that lists the tool answers with it, and the next call needs no connection. */
  lemma LoadedToolIsCached(m: Manager, key: ToolKey, now: real, names: seq<string>, later: real, env: Env)
    requires Attempts(m, key, now, Loads(names)) && key.tool in names
    ensures AnswerOf(m, key, now, Loads(names)) == Found
    ensures var n := AfterGet(m, key, now, Loads(names));
            AnswerOf(n, key, later, env) == Found && AfterGet(n, key, later, env) == n
  {
    var i :| 0 <= i < |names| && names[i] == key.tool;
    assert ToolKey(key.server, names[i]) in Named(key.server, names);
  }

  // ---------- the end of a cooldown ----------

  /** The backoff lets attempts at the server through. */
  predicate LetsThrough(m: Manager, server: ServerName, now: real) {
    !Overflows(m, server) && !CoolingDown(m, server, now)
  }

  /** Fifteen seconds after the last failure the backoff lets attempts through, unless so many
      failures have been counted that the wait cannot be computed; then it never does. */
  lemma CooldownEndsIff(m: Manager, server: ServerName)
    ensures Failures(m, server) <= 1024 <==>
              forall now | now - LastFailure(m, server) >= 15.0 :: LetsThrough(m, server, now)
    ensures Failures(m, server) > 1024 <==> forall now :: !LetsThrough(m, server, now)
  {
    assert LetsThrough(m, server, LastFailure(m, server) + 15.0) <==> !Overflows(m, server);
  }

  /** The wait after n failures in a row: half a second, doubled each time up to fifteen. */
  lemma WaitsExactly(m: Manager, server: ServerName, now: real)
    requires Failures(m, server) <= 1024
    ensures LetsThrough(m, server, now) <==>
              now - LastFailure(m, server) >=
                match Failures(m, server)
                case 0 => now - LastFailure(m, server)
                case 1 => 0.5
                case 2 => 1.0
                case 3 => 2.0
                case 4 => 4.0
                case 5 => 8.0
                case _ => 15.0
  {
    FirstWaits();
    if Failures(m, server) > 5 {
      Pow2Monotone(5, Failures(m, server) - 1);
    }
  }

  /** A failed attempt and a crash report count one failure now and drop the server's tools; a load
      forgets the failures; what is cancelled, and a shutdown, leave the count as it is. */
  lemma Counting(m: Manager, server: ServerName, e: Event)
    ensures (e.Crash? && e.server == server) || (IsAttempt(m, e, server) && (e.env.OpenFails? || e.env.LoadFails?)) ==>
              var n := Next(m, e);
              && Failures(n, server) == Failures(m, server) + 1 && LastFailure(n, server) == e.now
              && server !in n.sessions && forall k | k in m.tools :: k in n.tools <==> k.server != server
    ensures IsAttempt(m, e, server) && e.env.Loads? ==>
              var n := Next(m, e);
              && Failures(n, server) == 0 && server in n.sessions
              && forall k: ToolKey :: k in n.tools <==> k in m.tools || (k.server == server && k.tool in e.env.names)
    ensures e.Shutdown? ==>
              var n := Next(m, e);
              && n.tools == {} && n.sessions == {}
              && Failures(n, server) == Failures(m, server) && LastFailure(n, server) == LastFailure(m, server)
    ensures e.Get? && !IsAttempt(m, e, e.key.server) ==> Next(m, e) == m
    ensures IsAttempt(m, e, server) && (e.env.LoadCancelled? || (e.env.OpenCancelled? && server !in m.sessions)) ==>
              var n := Next(m, e);
              && Failures(n, server) == Failures(m, server) && n.tools == m.tools
              && n.sessions == if e.env.LoadCancelled? then m.sessions + {server} else m.sessions
  {
    if IsAttempt(m, e, server) && e.env.Loads? {
      forall k: ToolKey ensures k in Named(server, e.env.names) <==> k.server == server && k.tool in e.env.names {
        if k.server == server && k.tool in e.env.names {
          var i :| 0 <= i < |e.env.names| && e.env.names[i] == k.tool;
          assert ToolKey(server, e.env.names[i]) in Named(server, e.env.names);
        }
      }
    }
  }

  /** What get_tool answers: the tool exactly if it is in the table afterwards; otherwise the first
      of the reasons in the order of the code. */
  lemma AnswersExactly(m: Manager, key: ToolKey, now: real, env: Env)
    ensures var n, answer := AfterGet(m, key, now, env), AnswerOf(m, key, now, env);
            && (answer == Found <==> key in n.tools)
            && (answer == BackoffOverflow <==> key !in m.tools && Failures(m, key.server) > 1024)
            && (answer == InBackoff <==>
                  key !in m.tools && Failures(m, key.server) <= 1024 && !LetsThrough(m, key.server, now))
            && (answer == Misconfigured <==>
                  key !in m.tools && LetsThrough(m, key.server, now) && env == MissingKey)
            && (answer == ToolMissing <==>
                  key !in m.tools && LetsThrough(m, key.server, now) && env.Loads? && key.tool !in env.names)
            && (answer == Cancelled <==>
                  key !in m.tools && LetsThrough(m, key.server, now) &&
                  (env == LoadCancelled || (env == OpenCancelled && key.server !in m.sessions)))
            && (key !in m.tools && LetsThrough(m, key.server, now) && (env == OpenFails || env == LoadFails) ==>
                  answer == ConnectionError)
  {
    Counting(m, key.server, Get(key, now, env));
  }

  /** Whatever happens, no connection attempt at the server is made any more. */
  ghost predicate ShutOut(m: Manager, server: ServerName) {
    forall run, e :: !IsAttempt(After(m, run), e, server)
  }

  lemma {:induction false} OverflowStays(m: Manager, server: ServerName, run: seq<Event>)
    requires Overflows(m, server)
    ensures Overflows(After(m, run), server)
    decreases |run|
  {
    if run == [] {
    } else {
      OverflowStays(m, server, run[..|run| - 1]);
    }
  }

  /** In any reachable state: a server is shut out for the rest of the process exactly from the
      1025th counted failure on.  A shutdown of the manager does not help. */
  lemma ShutOutIff(m: Manager, server: ServerName)
    requires Coherent(m)
    ensures ShutOut(m, server) <==> Failures(m, server) > 1024
  {
    if Overflows(m, server) {
      forall run, e ensures !IsAttempt(After(m, run), e, server) {
        OverflowStays(m, server, run);
      }
    } else {
      var crash := Crash(server, 0.0);
      var run := if Failures(m, server) == 0 then [crash] else [];
      var n := After(m, run);
      assert [crash][..0] == [];
      var e := Get(ToolKey(server, ""), LastFailure(n, server) + 15.0, OpenFails);
      assert IsAttempt(After(m, run), e, server);
    }
  }

  /** It happens: crash reports alone count failures, at any pace. */
  lemma {:induction false} CrashesAddUp(server: ServerName, now: real, n: nat)
    ensures Failures(After(INITIAL, seq(n, _ => Crash(server, now))), server) == n
  {
    if n == 0 {
    } else {
      var run := seq(n, _ => Crash(server, now));
      assert run[..n - 1] == seq(n - 1, _ => Crash(server, now));
      CrashesAddUp(server, now, n - 1);
    }
  }

  // ---------- backoff ----------

  predicate IsAttempt(m: Manager, e: Event, server: ServerName) {
    e.Get? && e.key.server == server && Attempts(m, e.key, e.now, e.env)
  }

  /** Times of the connection attempts to the server. */
  function AttemptTimes(run: seq<Event>, server: ServerName): seq<real> {
    if run == [] then []
    else
      var p, e := run[..|run| - 1], run[|run| - 1];
      AttemptTimes(p, server) + if IsAttempt(After(INITIAL, p), e, server) then [e.now] else []
  }

  /** Every attempt at the server fails, while opening the session or while loading. */
  ghost predicate ServerDown(run: seq<Event>, server: ServerName) {
    forall i | 0 <= i < |run| && run[i].Get? && run[i].key.server == server ::
      run[i].env.OpenFails? || run[i].env.LoadFails? || run[i].env.MissingKey?
  }

  /** Clock readings under the lock never run backwards. */
  ghost predicate Timely(run: seq<Event>) {
    && (forall i | 0 <= i < |run| && !run[i].Shutdown? :: run[i].now >= 0.0)
    && forall i, j | 0 <= i < j < |run| && !run[i].Shutdown? && !run[j].Shutdown? :: run[i].now <= run[j].now
  }

  lemma BackoffMonotone(i: nat, j: nat)
    requires 1 <= i <= j
    ensures 0.0 < Backoff(i) <= Backoff(j)
  {
    Pow2Monotone(i - 1, j - 1);
  }

  /** The manager has counted at least the attempts, and not earlier than the last of them. */
  ghost predicate Counted(m: Manager, times: seq<real>, server: ServerName) {
    && server !in m.sessions && (forall k | k in m.tools :: k.server != server)
    && Failures(m, server) >= |times|
    && (times != [] ==> LastFailure(m, server) >= times[|times| - 1])
    && forall i | 1 <= i < |times| :: times[i] - times[i - 1] >= Backoff(i)
  }

  lemma {:induction false} AttemptsArePast(run: seq<Event>, server: ServerName, t: real)
    requires forall j | 0 <= j < |run| && !run[j].Shutdown? :: run[j].now <= t
    ensures forall i | 0 <= i < |AttemptTimes(run, server)| :: AttemptTimes(run, server)[i] <= t
  {
    if run == [] {
    } else {
      AttemptsArePast(run[..|run| - 1], server, t);
    }
  }

  lemma EventKeepsCounted(m: Manager, times: seq<real>, e: Event, server: ServerName)
    requires Counted(m, times, server)
    requires !e.Shutdown? && times != [] ==> times[|times| - 1] <= e.now
    requires e.Get? && e.key.server == server ==> e.env.OpenFails? || e.env.LoadFails? || e.env.MissingKey?
    ensures Counted(Next(m, e), times + (if IsAttempt(m, e, server) then [e.now] else []), server)
  {
    if IsAttempt(m, e, server) {
      if times != [] {
        BackoffMonotone(|times|, Failures(m, server));
      }
    } else {
      assert times + [] == times;
    }
  }

  lemma {:induction false} DownServerIsCounted(run: seq<Event>, server: ServerName)
    requires ServerDown(run, server) && Timely(run)
    ensures Counted(After(INITIAL, run), AttemptTimes(run, server), server)
  {
    if run == [] {
    } else {
      var p, e := run[..|run| - 1], run[|run| - 1];
      DownServerIsCounted(p, server);
      if !e.Shutdown? {
        AttemptsArePast(p, server, e.now);
      }
      EventKeepsCounted(After(INITIAL, p), AttemptTimes(p, server), e, server);
    }
  }

  /** Sum of the first n waits. */
  function BackoffSum(n: nat): real {
    if n == 0 then 0.0 else BackoffSum(n - 1) + Backoff(n)
  }

  lemma {:induction false} SpacingSums(times: seq<real>, k: nat)
    requires k < |times| && forall i | 1 <= i < |times| :: times[i] - times[i - 1] >= Backoff(i)
    ensures times[k] - times[0] >= BackoffSum(k)
  {
    if k == 0 {
    } else {
      SpacingSums(times, k - 1);
    }
  }

  /** 0.5 + 1 + 2 + 4 + 8 seconds, then 15 seconds each time. */
  lemma {:induction false} BackoffSumClosed(n: nat)
    requires n >= 5
    ensures BackoffSum(n) == 15.5 + 15.0 * (n - 5) as real
  {
    if n == 5 {
      FirstWaits();
    } else {
      BackoffSumClosed(n - 1);
      FirstWaits();
      Pow2Monotone(5, n - 1);
    }
  }

  lemma FirstWaits()
    ensures Backoff(1) == 0.5 && Backoff(2) == 1.0 && Backoff(3) == 2.0 && Backoff(4) == 4.0 && Backoff(5) == 8.0
    ensures BackoffSum(5) == 15.5 && Pow2(5) == 32.0
  {
    assert Pow2(1) == 2.0;
    assert Pow2(2) == 4.0;
    assert Pow2(3) == 8.0;
    assert Pow2(4) == 16.0;
    assert BackoffSum(1) == 0.5;
    assert BackoffSum(2) == 1.5;
    assert BackoffSum(3) == 3.5;
    assert BackoffSum(4) == 7.5;
  }

  /** A server that is down is not hammered, whatever calls, crash reports and shutdowns come
      in between: the k-th attempt after the first is at least BackoffSum(k) seconds after it,
      so the attempts within T seconds are at most T / 15 + 6. */
  lemma AttemptsAreSpaced(run: seq<Event>, server: ServerName, k: nat)
    requires ServerDown(run, server) && Timely(run) && k < |AttemptTimes(run, server)|
    ensures var times := AttemptTimes(run, server);
            && times[k] - times[0] >= BackoffSum(k)
            && (k >= 5 ==> times[k] - times[0] >= 15.5 + 15.0 * (k - 5) as real)
            && (k + 1) as real <= (times[k] - times[0]) / 15.0 + 6.0
  {
    DownServerIsCounted(run, server);
    SpacingSums(AttemptTimes(run, server), k);
    if k >= 5 {
      BackoffSumClosed(k);
    } else {
      BackoffSumPositive(k);
    }
  }

  lemma {:induction false} BackoffSumPositive(n: nat)
    ensures BackoffSum(n) >= 0.0
  {
    if n == 0 {
    } else {
      BackoffSumPositive(n - 1);
      BackoffMonotone(n, n);
    }
  }
}
