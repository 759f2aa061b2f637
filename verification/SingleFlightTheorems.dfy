/** Safety, deadlock and progress of the single-flight protocol over whole runs. */
module SingleFlightTheorems {
  import opened SingleFlight

  ghost predicate Reached(early: bool, keys: seq<Key>, run: seq<Action>) {
    Valid(early, Init(keys), run) && NoClear(run)
  }

  lemma ReachedInv(early: bool, keys: seq<Key>, run: seq<Action>)
    requires Reached(early, keys, run)
    ensures Inv(early, After(early, Init(keys), run))
  {
    InitInv(early, keys);
    RunKeepsInv(early, Init(keys), run);
  }

  // ---------- safety, in both protocols ----------

  /** One fetch per key at a time, and the table names its leader. */
  lemma OneLeaderPerKey(early: bool, keys: seq<Key>, run: seq<Action>, t: nat, u: nat)
    requires Reached(early, keys, run)
    requires var s := After(early, Init(keys), run);
             t < |s.pcs| == |s.keys| && u < |s.pcs| && s.keys[t] == s.keys[u]
    requires var s := After(early, Init(keys), run); Leading(s.pcs[t]) && Leading(s.pcs[u])
    ensures t == u && var s := After(early, Init(keys), run);
            s.keys[t] in s.sh.inflight && s.sh.inflight[s.keys[t]] == t
  {
    ReachedInv(early, keys, run);
  }

  /** A follower gets what its leader returns or will return, and a value any caller gets was
      stored under that caller's key before. */
  lemma AnswersAgree(early: bool, keys: seq<Key>, run: seq<Action>, t: nat)
    requires Reached(early, keys, run)
    requires var s := After(early, Init(keys), run); t < |s.pcs| == |s.keys| && s.pcs[t].Returned?
    ensures var s := After(early, Init(keys), run);
            var Returned(o, src) := s.pcs[t];
            && (o.Some? ==> (s.keys[t], o.value) in s.stored)
            && (src.Hit? ==> o.Some?)
            && (src.Followed? ==>
                  var l := src.leader;
                  l < |s.pcs| && s.keys[l] == s.keys[t] &&
                  (s.pcs[l] == Retiring(o) || s.pcs[l] == Returned(o, Led)))
  {
    ReachedInv(early, keys, run);
    var s := After(early, Init(keys), run);
    assert CallerFits(s, t) && FutureFits(s, t);
    if s.pcs[t].source.Followed? {
      assert FutureFits(s, s.pcs[t].source.leader);
    }
  }

  /** Some step of the run ended caller t's coroutine with value v. */
  ghost predicate Fetched(run: seq<Action>, keys: seq<Key>, k: Key, v: Value) {
    exists i :: 0 <= i < |run| && run[i].Finish? && run[i].result == Some(v) &&
                run[i].t < |keys| && keys[run[i].t] == k
  }

  lemma {:induction false} StoredWasFetched(early: bool, s: Sys, run: seq<Action>, k: Key, v: Value)
    requires Valid(early, s, run) && (k, v) in After(early, s, run).stored
    ensures || (k, v) in s.stored || Fetched(run, s.keys, k, v)
            || exists t :: 0 <= t < |s.pcs| && t < |s.keys| && s.pcs[t] == Publishing(v) && s.keys[t] == k
    decreases |run|
  {
    if run == [] {
    } else {
      var n := Next(early, s, run[0]);
      StoredWasFetched(early, n, run[1..], k, v);
      if Fetched(run[1..], s.keys, k, v) {
        var i :| 0 <= i < |run[1..]| && run[1..][i].Finish? && run[1..][i].result == Some(v) &&
                 run[1..][i].t < |s.keys| && s.keys[run[1..][i].t] == k;
        assert run[i + 1] == run[1..][i];
      } else if (k, v) !in n.stored {
        var t :| 0 <= t < |n.pcs| && t < |n.keys| && n.pcs[t] == Publishing(v) && n.keys[t] == k;
        assert s.pcs[t] == Publishing(v) || run[0] == Finish(t, Some(v));
      }
    }
  }

  /** Every value handed to a caller was produced in this run by the coroutine of a caller
      with the same key: the cache neither invents nor mixes up values. */
  lemma ValuesComeFromFetches(early: bool, keys: seq<Key>, run: seq<Action>, t: nat)
    requires Reached(early, keys, run) && t < |keys|
    requires var s := After(early, Init(keys), run);
             t < |s.pcs| && s.pcs[t].Returned? && s.pcs[t].outcome.Some?
    ensures Fetched(run, keys, keys[t], After(early, Init(keys), run).pcs[t].outcome.value)
  {
    KeysFixed(early, Init(keys), run);
    ReachedInv(early, keys, run);
    AnswersAgree(early, keys, run, t);
    StoredWasFetched(early, Init(keys), run, keys[t], After(early, Init(keys), run).pcs[t].outcome.value);
  }

  lemma {:induction false} KeysFixed(early: bool, s: Sys, run: seq<Action>)
    requires Valid(early, s, run)
    ensures After(early, s, run).keys == s.keys && |After(early, s, run).pcs| == |s.pcs|
    decreases |run|
  {
    if run == [] {
    } else {
      KeysFixed(early, Next(early, s, run[0]), run[1..]);
    }
  }

  /** Caller l's coroutine has ended with o, and l is on its way to return o or has done so. */
  ghost predicate Carries(pc: Pc, o: Outcome) {
    pc == Retiring(o) || pc == Returned(o, Led) || (o.Some? && pc == Publishing(o.value))
  }

  lemma {:induction false} CarriedFromFinish(early: bool, s: Sys, run: seq<Action>, l: nat, o: Outcome)
    requires Valid(early, s, run) && l < |s.pcs|
    ensures |After(early, s, run).pcs| == |s.pcs|
    ensures Carries(After(early, s, run).pcs[l], o) ==> Finish(l, o) in run || Carries(s.pcs[l], o)
    ensures Finish(l, o) in run || Carries(s.pcs[l], o) ==> Carries(After(early, s, run).pcs[l], o)
    decreases |run|
  {
    if run == [] {
    } else {
      CarriedFromFinish(early, Next(early, s, run[0]), run[1..], l, o);
      assert Finish(l, o) in run <==> run[0] == Finish(l, o) || Finish(l, o) in run[1..];
    }
  }

  /** A leader's answer is what its coroutine ended with, value, None or exception alike, and a
      follower's is what its leader's ended with; whatever a coroutine ends with gets there. */
  lemma AnswersAreResults(early: bool, keys: seq<Key>, run: seq<Action>, t: nat, o: Outcome)
    requires Reached(early, keys, run) && t < |keys|
    ensures var s := After(early, Init(keys), run);
            && |s.pcs| == |keys|
            && (s.pcs[t] == Returned(o, Led) || s.pcs[t] == Retiring(o) ==> Finish(t, o) in run)
            && (Finish(t, o) in run ==>
                  || s.pcs[t] == Returned(o, Led) || s.pcs[t] == Retiring(o)
                  || (o.Some? && s.pcs[t] == Publishing(o.value)))
            && (forall l :: s.pcs[t] == Returned(o, Followed(l)) ==> Finish(l, o) in run)
  {
    CarriedFromFinish(early, Init(keys), run, t, o);
    var s := After(early, Init(keys), run);
    KeysFixed(early, Init(keys), run);
    forall l | s.pcs[t] == Returned(o, Followed(l)) ensures Finish(l, o) in run {
      AnswersAgree(early, keys, run, t);
      CarriedFromFinish(early, Init(keys), run, l, o);
    }
  }

  // ---------- the deadlock of the protocol as coded ----------

  /** Follower t holds the lock while leader l needs it to publish. */
  ghost predicate StuckAt(s: Sys, t: nat, l: nat) {
    && t < |s.pcs| && l < |s.pcs|
    && s.sh.lock && s.pcs[t] == Waiting(l) && s.pcs[l].Publishing?
    && l in s.sh.futures && s.sh.futures[l] == Pending
    && forall u | 0 <= u < |s.pcs| && u != t :: !s.pcs[u].Waiting?
  }

  ghost predicate Stuck(s: Sys) {
    exists t: nat, l: nat :: StuckAt(s, t, l)
  }

  /** The jam is permanent: whatever runs next, clear() included, the lock stays held and no
      call returns any more. */
  lemma {:induction false} StuckForever(s: Sys, t: nat, l: nat, run: seq<Action>)
    requires StuckAt(s, t, l) && Valid(false, s, run)
    ensures var e := After(false, s, run);
            StuckAt(e, t, l) && |e.pcs| == |s.pcs| &&
            forall u | 0 <= u < |s.pcs| :: e.pcs[u].Returned? <==> s.pcs[u].Returned?
    decreases |run|
  {
    if run == [] {
    } else {
      assert run[0].Finish?;
      var n := Next(false, s, run[0]);
      StuckForever(n, t, l, run[1..]);
      assert forall u | 0 <= u < |s.pcs| :: n.pcs[u].Returned? <==> s.pcs[u].Returned?;
    }
  }

  /** Once a follower waits, the leader's result alone decides: a value jams the cache,
      None or an exception lets the follower go. */
  lemma ResultDecides(s: Sys, t: nat, l: nat, result: Outcome)
    requires Inv(false, s) && t < |s.pcs| && s.pcs[t] == Waiting(l)
    requires Enabled(false, s, Finish(l, result))
    ensures var n := Next(false, s, Finish(l, result));
            && (StuckAt(n, t, l) <==> result.Some?)
            && (Enabled(false, n, Wake(t)) <==> !result.Some?)
  {
    assert FutureFits(s, l);
    assert forall u | 0 <= u < |s.pcs| && u != t :: !s.pcs[u].Waiting?;
  }

  /** The steps that jam: the coroutine of a leader somebody waits for yields a value, or a caller
      starts to wait for a leader that has its value but has not published it. */
  ghost predicate JamStep(s: Sys, a: Action) {
    || (a.Finish? && a.result.Some? && exists t :: 0 <= t < |s.pcs| && s.pcs[t] == Waiting(a.t))
    || (a.Register? && a.t < |s.keys| && JoinsPublisher(s, SeatOf(s.sh, s.keys[a.t])))
  }

  predicate JoinsPublisher(s: Sys, seat: Seat) {
    seat.Follow? && seat.leader < |s.pcs| && s.pcs[seat.leader].Publishing?
  }

  lemma JamStepJams(s: Sys, a: Action)
    requires Inv(false, s) && Enabled(false, s, a) && JamStep(s, a)
    ensures Stuck(Next(false, s, a))
  {
    var n := Next(false, s, a);
    if a.Finish? {
      var t: nat :| t < |s.pcs| && s.pcs[t] == Waiting(a.t);
      ResultDecides(s, t, a.t, a.result);
      assert StuckAt(n, t, a.t);
    } else {
      var l := SeatOf(s.sh, s.keys[a.t]).leader;
      assert FutureFits(s, l);
      assert StuckAt(n, a.t, l);
    }
  }

  lemma JamComesFrom(s: Sys, a: Action, t: nat, l: nat)
    requires Inv(false, s) && Enabled(false, s, a) && !a.Clear? && StuckAt(Next(false, s, a), t, l)
    ensures a.t == t ==> a.Register? && SeatOf(s.sh, s.keys[t]) == Follow(l)
    ensures a.t == l != t ==> a.Finish? && a.result.Some?
    ensures a.t != l && a.t != t ==> StuckAt(s, t, l)
  {
    var n := Next(false, s, a);
    assert forall u | 0 <= u < |s.pcs| && u != a.t :: n.pcs[u] == s.pcs[u];
    assert FutureFits(s, l);
  }

  lemma OtherStepsDoNotJam(s: Sys, a: Action)
    requires Inv(false, s) && Enabled(false, s, a) && !a.Clear? && Stuck(Next(false, s, a))
    ensures Stuck(s) || JamStep(s, a)
  {
    var n := Next(false, s, a);
    var t: nat, l: nat :| StuckAt(n, t, l);
    JamComesFrom(s, a, t, l);
  }

  /** Some step of the run jams the cache. */
  ghost predicate Jams(s: Sys, run: seq<Action>)
    requires Valid(false, s, run)
    decreases |run|
  {
    run != [] && (JamStep(s, run[0]) || Jams(Next(false, s, run[0]), run[1..]))
  }

  lemma {:induction false} RunJamsIff(s: Sys, run: seq<Action>)
    requires Inv(false, s) && Valid(false, s, run) && NoClear(run)
    ensures Stuck(After(false, s, run)) <==> Stuck(s) || Jams(s, run)
    decreases |run|
  {
    if run == [] {
    } else {
      var n := Next(false, s, run[0]);
      StepKeepsInv(false, s, run[0]);
      RunJamsIff(n, run[1..]);
      if Stuck(s) {
        var t: nat, l: nat :| StuckAt(s, t, l);
        StuckForever(s, t, l, run);
      } else if JamStep(s, run[0]) {
        JamStepJams(s, run[0]);
      } else if Stuck(n) {
        OtherStepsDoNotJam(s, run[0]);
      }
    }
  }

  /** Which runs jam, exactly: those in which a waited-for coroutine yields a value, or a caller
      starts to wait between the end of a coroutine and the publication of its value. */
  lemma JamsExactly(keys: seq<Key>, run: seq<Action>)
    requires Reached(false, keys, run)
    ensures Stuck(After(false, Init(keys), run)) <==> Jams(Init(keys), run)
  {
    InitInv(false, keys);
    RunJamsIff(Init(keys), run);
  }

  /** Two concurrent callers of one missing key are enough: the second comes while the first
      one's coroutine runs. */
  lemma TwoCallersJam(k: Key, v: Value)
    ensures var run := [Lookup(0, false), Register(0), Lookup(1, false), Register(1), Finish(0, Some(v))];
            Reached(false, [k, k], run) && StuckAt(After(false, Init([k, k]), run), 1, 0)
  {
    var s0 := Init([k, k]);
    var s1 := Next(false, s0, Lookup(0, false));
    var s2 := Next(false, s1, Register(0));
    var s3 := Next(false, s2, Lookup(1, false));
    var s4 := Next(false, s3, Register(1));
    var s5 := Next(false, s4, Finish(0, Some(v)));
    var r5: seq<Action> := [];
    var r4 := [Finish(0, Some(v))] + r5;
    var r3 := [Register(1)] + r4;
    var r2 := [Lookup(1, false)] + r3;
    var r1 := [Register(0)] + r2;
    var r0 := [Lookup(0, false)] + r1;
    Unfold(false, s4, Finish(0, Some(v)), r5);
    Unfold(false, s3, Register(1), r4);
    Unfold(false, s2, Lookup(1, false), r3);
    Unfold(false, s1, Register(0), r2);
    Unfold(false, s0, Lookup(0, false), r1);
    assert r0 == [Lookup(0, false), Register(0), Lookup(1, false), Register(1), Finish(0, Some(v))];
    assert StuckAt(s5, 1, 0);
  }

  lemma Unfold(early: bool, s: Sys, a: Action, rest: seq<Action>)
    requires Enabled(early, s, a) && Valid(early, Next(early, s, a), rest)
    ensures Valid(early, s, [a] + rest) && After(early, s, [a] + rest) == After(early, Next(early, s, a), rest)
  {
    assert ([a] + rest)[1..] == rest;
  }

  // ---------- progress ----------

  /** Nobody can move: every coroutine has ended and every runnable step has been taken. */
  ghost predicate Quiescent(early: bool, s: Sys) {
    forall a: Action :: Enabled(early, s, a) ==> a.Clear?
  }

  ghost predicate AllReturned(s: Sys) {
    forall t | 0 <= t < |s.pcs| :: s.pcs[t].Returned?
  }

  /** A caller that has not returned can step, or is jammed, or waits for one that can. */
  lemma SomeoneCanStep(early: bool, s: Sys, t: nat)
    requires Inv(early, s) && t < |s.pcs| && !s.pcs[t].Returned? && !Stuck(s)
    ensures !Quiescent(early, s)
  {
    if s.sh.lock {
      var f :| 0 <= f < |s.pcs| && s.pcs[f].Waiting?;
      WaiterCanStep(early, s, f);
    } else {
      match s.pcs[t]
      case Start => assert Enabled(early, s, Lookup(t, false));
      case Missed => assert Enabled(early, s, Register(t));
      case Fetching => assert Enabled(early, s, Finish(t, NoValue));
      case Publishing(_) => assert Enabled(early, s, Publish(t, {}));
      case Retiring(_) => assert Enabled(early, s, Retire(t));
      case Waiting(_) => WaiterCanStep(early, s, t);
    }
  }

  lemma WaiterCanStep(early: bool, s: Sys, t: nat)
    requires Inv(early, s) && t < |s.pcs| && s.pcs[t].Waiting?
    ensures Stuck(s) || !Quiescent(early, s)
  {
    var l := s.pcs[t].leader;
    assert CallerFits(s, t);
    assert FutureFits(s, l);
    if s.sh.futures[l].Resolved? {
      assert Enabled(early, s, Wake(t));
    } else if s.pcs[l].Fetching? {
      assert Enabled(early, s, Finish(l, NoValue));
    } else if s.sh.lock {
      assert StuckAt(s, t, l);
    } else {
      assert Enabled(early, s, Publish(l, {}));
    }
  }

  function Rank(pc: Pc): nat {
    match pc
    case Start => 5
    case Missed => 4
    case Fetching => 3
    case Publishing(_) => 2
    case Retiring(_) => 1
    case Waiting(_) => 1
    case Returned(_, _) => 0
  }

  function Total(pcs: seq<Pc>): nat {
    if pcs == [] then 0 else Rank(pcs[0]) + Total(pcs[1..])
  }

  lemma {:induction false} TotalUpdate(pcs: seq<Pc>, t: nat, pc: Pc)
    requires t < |pcs|
    ensures Total(pcs[t := pc]) == Total(pcs) - Rank(pcs[t]) + Rank(pc)
  {
    if t > 0 {
      TotalUpdate(pcs[1..], t - 1, pc);
      assert pcs[t := pc][1..] == pcs[1..][t - 1 := pc];
    } else {
      assert pcs[t := pc][1..] == pcs[1..];
    }
  }

  /** A step moves one caller, and moves it forward. */
  lemma StepGoesForward(early: bool, s: Sys, a: Action)
    requires Enabled(early, s, a) && !a.Clear?
    ensures var n := Next(early, s, a);
            |n.pcs| == |s.pcs| && n.pcs == s.pcs[a.t := n.pcs[a.t]] && Rank(n.pcs[a.t]) < Rank(s.pcs[a.t])
  {
  }

  lemma {:induction false} StepsAreBounded(early: bool, s: Sys, run: seq<Action>)
    requires Valid(early, s, run) && NoClear(run)
    ensures |run| + Total(After(early, s, run).pcs) <= Total(s.pcs)
    decreases |run|
  {
    hide Next, Rank;
    if run == [] {
    } else {
      var a := run[0];
      var n := Next(early, s, a);
      StepGoesForward(early, s, a);
      TotalUpdate(s.pcs, a.t, n.pcs[a.t]);
      StepsAreBounded(early, n, run[1..]);
    }
  }

  lemma {:induction false} TotalOfStarts(pcs: seq<Pc>)
    requires forall t | 0 <= t < |pcs| :: pcs[t].Start?
    ensures Total(pcs) == 5 * |pcs|
  {
    if pcs == [] {
    } else {
      TotalOfStarts(pcs[1..]);
    }
  }

  /** No run is longer than five steps a caller, so every run comes to rest; and when it does,
      as coded either everybody has returned or the cache is jammed for good. */
  lemma RestIsReturnOrJam(early: bool, keys: seq<Key>, run: seq<Action>)
    requires Reached(early, keys, run)
    ensures |run| <= 5 * |keys|
    ensures var s := After(early, Init(keys), run);
            Quiescent(early, s) ==> (AllReturned(s) <==> !Stuck(s))
  {
    TotalOfStarts(Init(keys).pcs);
    StepsAreBounded(early, Init(keys), run);
    ReachedInv(early, keys, run);
    var s := After(early, Init(keys), run);
    if !AllReturned(s) && !Stuck(s) {
      var t :| 0 <= t < |s.pcs| && !s.pcs[t].Returned?;
      SomeoneCanStep(early, s, t);
    }
  }

  /** With the await moved after the release the jam is gone: every run that has come to rest
      has answered every caller. */
  lemma EarlyReleaseAnswersEveryone(keys: seq<Key>, run: seq<Action>)
    requires Reached(true, keys, run)
    requires Quiescent(true, After(true, Init(keys), run))
    ensures AllReturned(After(true, Init(keys), run)) && |run| <= 5 * |keys|
  {
    ReachedInv(true, keys, run);
    RestIsReturnOrJam(true, keys, run);
  }

  // ---------- clear() ----------

  /** clear() forgets the in-flight table but not the fetches: a key can then be fetched twice
      at once, so OneLeaderPerKey needs its absence. */
  lemma ClearAllowsTwoLeaders(early: bool, k: Key)
    ensures exists run :: Valid(early, Init([k, k]), run) &&
              var s := After(early, Init([k, k]), run); s.pcs == [Fetching, Fetching] && s.keys == [k, k]
  {
    var s0 := Init([k, k]);
    var s1 := Next(early, s0, Lookup(0, false));
    var s2 := Next(early, s1, Register(0));
    var s3 := Next(early, s2, Clear);
    var s4 := Next(early, s3, Lookup(1, false));
    var s5 := Next(early, s4, Register(1));
    Unfold(early, s4, Register(1), []);
    Unfold(early, s3, Lookup(1, false), [Register(1)] + []);
    Unfold(early, s2, Clear, [Lookup(1, false)] + ([Register(1)] + []));
    Unfold(early, s1, Register(0), [Clear] + ([Lookup(1, false)] + ([Register(1)] + [])));
    Unfold(early, s0, Lookup(0, false), [Register(0)] + ([Clear] + ([Lookup(1, false)] + ([Register(1)] + []))));
    assert s5.pcs == [Fetching, Fetching];
  }

  // What clear() may do to one leader per key, exactly.

  predicate Unregistered(pc: Pc) {
    pc.Start? || pc.Missed?
  }

  ghost predicate OneLeaderEach(s: Sys) {
    forall t, u | 0 <= t < |s.pcs| == |s.keys| && 0 <= u < |s.pcs| && s.keys[t] == s.keys[u] ::
      Leading(s.pcs[t]) && Leading(s.pcs[u]) ==> t == u
  }

  /** Caller u may still register on the key that caller t is fetching. */
  ghost predicate ExposedBy(s: Sys, t: nat, u: nat) {
    && t < |s.pcs| == |s.keys| && u < |s.pcs| && s.keys[t] == s.keys[u]
    && Leading(s.pcs[t]) && Unregistered(s.pcs[u])
  }

  ghost predicate Exposed(s: Sys) {
    exists t: nat, u: nat :: ExposedBy(s, t, u)
  }

  /** Key k is led by the caller in the table, if by any. */
  ghost predicate Listed(s: Sys, k: Key) {
    && |s.pcs| == |s.keys|
    && (k in s.sh.inflight ==>
          var l := s.sh.inflight[k]; l < |s.pcs| && s.keys[l] == k && Leading(s.pcs[l]))
    && forall t | 0 <= t < |s.pcs| && s.keys[t] == k && Leading(s.pcs[t]) ::
         k in s.sh.inflight && s.sh.inflight[k] == t
  }

  /** Key k has been struck from the table, but no caller is left to lead it a second time. */
  ghost predicate Deserted(s: Sys, k: Key) {
    && |s.pcs| == |s.keys| && k !in s.sh.inflight
    && (forall t | 0 <= t < |s.pcs| && s.keys[t] == k :: !Unregistered(s.pcs[t]))
    && forall t, u | 0 <= t < |s.pcs| && 0 <= u < |s.pcs| && s.keys[t] == s.keys[u] == k ::
         Leading(s.pcs[t]) && Leading(s.pcs[u]) ==> t == u
  }

  ghost predicate FuturesFit(s: Sys) {
    |s.pcs| == |s.keys| && forall t | 0 <= t < |s.pcs| :: FutureFits(s, t)
  }

  ghost predicate ClearedInv(s: Sys) {
    FuturesFit(s) && forall k :: Listed(s, k) || Deserted(s, k)
  }

  lemma FuturesStayFit(early: bool, s: Sys, a: Action)
    requires FuturesFit(s) && Enabled(early, s, a)
    ensures FuturesFit(Next(early, s, a))
  {
    var n := Next(early, s, a);
    assert !a.Clear? ==> FutureFits(s, a.t);
    forall u | 0 <= u < |s.pcs| ensures FutureFits(n, u) {
      assert FutureFits(s, u);
    }
  }

  lemma StaysDeserted(early: bool, s: Sys, a: Action, k: Key)
    requires Deserted(s, k) && Enabled(early, s, a) && !a.Clear?
    ensures Deserted(Next(early, s, a), k)
  {
    var n := Next(early, s, a);
    assert forall u | 0 <= u < |s.pcs| && u != a.t :: n.pcs[u] == s.pcs[u];
    assert Leading(n.pcs[a.t]) && !Leading(s.pcs[a.t]) ==> a.Register?;
    assert Unregistered(n.pcs[a.t]) ==> Unregistered(s.pcs[a.t]);
  }

  lemma StaysListed(early: bool, s: Sys, a: Action, k: Key)
    requires Listed(s, k) && FuturesFit(s) && Enabled(early, s, a) && !a.Clear?
    ensures Listed(Next(early, s, a), k)
  {
    var n := Next(early, s, a);
    assert forall u | 0 <= u < |s.pcs| && u != a.t :: n.pcs[u] == s.pcs[u];
    if k in s.sh.inflight {
      assert FutureFits(s, s.sh.inflight[k]);
    }
    assert Leading(n.pcs[a.t]) <==>
      (Leading(s.pcs[a.t]) && !a.Retire?) || (a.Register? && SeatOf(s.sh, s.keys[a.t]).Lead?);
  }

  lemma InvIsCleared(early: bool, s: Sys)
    requires Inv(early, s)
    ensures ClearedInv(s)
  {
    forall k ensures Listed(s, k) {
    }
  }

  lemma ClearLeavesInv(early: bool, s: Sys)
    requires ClearedInv(s) && Enabled(early, s, Clear) && !Exposed(s)
    ensures ClearedInv(Next(early, s, Clear))
  {
    var n := Next(early, s, Clear);
    FuturesStayFit(early, s, Clear);
    forall k ensures Listed(n, k) || Deserted(n, k) {
      assert Listed(s, k) || Deserted(s, k);
      if t: nat :| t < |s.pcs| && s.keys[t] == k && Leading(s.pcs[t]) {
        forall u: nat | u < |s.pcs| && s.keys[u] == k ensures !Unregistered(s.pcs[u]) {
          assert !ExposedBy(s, t, u);
        }
        assert Deserted(n, k);
      } else {
        assert Listed(n, k);
      }
    }
  }

  lemma StepKeepsCleared(early: bool, s: Sys, a: Action)
    requires ClearedInv(s) && Enabled(early, s, a) && (a.Clear? ==> !Exposed(s))
    ensures ClearedInv(Next(early, s, a))
  {
    if a.Clear? {
      ClearLeavesInv(early, s);
    } else {
      FuturesStayFit(early, s, a);
      var n := Next(early, s, a);
      forall k ensures Listed(n, k) || Deserted(n, k) {
        if Listed(s, k) {
          StaysListed(early, s, a, k);
        } else {
          StaysDeserted(early, s, a, k);
        }
      }
    }
  }

  lemma ClearedIsOneEach(s: Sys)
    requires ClearedInv(s)
    ensures OneLeaderEach(s)
  {
    forall t, u | 0 <= t < |s.pcs| && 0 <= u < |s.pcs| && s.keys[t] == s.keys[u] &&
                  Leading(s.pcs[t]) && Leading(s.pcs[u])
      ensures t == u
    {
      assert Listed(s, s.keys[t]) || Deserted(s, s.keys[t]);
    }
  }

  /** No clear() of the run comes while a key that is being fetched has a caller yet to register. */
  ghost predicate ClearsUnexposed(early: bool, s: Sys, run: seq<Action>)
    requires Valid(early, s, run)
    decreases |run|
  {
    run == [] ||
    ((run[0].Clear? ==> !Exposed(s)) && ClearsUnexposed(early, Next(early, s, run[0]), run[1..]))
  }

  lemma {:induction false} ClearedRun(early: bool, s: Sys, run: seq<Action>)
    requires ClearedInv(s) && Valid(early, s, run) && ClearsUnexposed(early, s, run)
    ensures ClearedInv(After(early, s, run)) && OneLeaderEach(After(early, s, run))
    decreases |run|
  {
    if run == [] {
      ClearedIsOneEach(s);
    } else {
      StepKeepsCleared(early, s, run[0]);
      ClearedRun(early, Next(early, s, run[0]), run[1..]);
    }
  }

  /** Over whole runs: any number of clears, none of them exposed, leaves one leader per key. */
  lemma UnexposedClearsAreSafe(early: bool, keys: seq<Key>, run: seq<Action>)
    requires Valid(early, Init(keys), run) && ClearsUnexposed(early, Init(keys), run)
    ensures ClearedInv(After(early, Init(keys), run)) && OneLeaderEach(After(early, Init(keys), run))
  {
    InitInv(early, keys);
    InvIsCleared(early, Init(keys));
    ClearedRun(early, Init(keys), run);
  }

  lemma {:induction false} NoClearIsUnexposed(early: bool, s: Sys, run: seq<Action>)
    requires Valid(early, s, run) && NoClear(run)
    ensures ClearsUnexposed(early, s, run)
    decreases |run|
  {
    if run == [] {
    } else {
      NoClearIsUnexposed(early, Next(early, s, run[0]), run[1..]);
    }
  }

  /** The exposed key gets its second leader in two steps. */
  lemma ExposedBreaks(early: bool, s: Sys, t: nat, u: nat) returns (run: seq<Action>)
    requires Enabled(early, s, Clear) && ExposedBy(s, t, u)
    ensures var c := Next(early, s, Clear);
            Valid(early, c, run) && NoClear(run) && !OneLeaderEach(After(early, c, run))
  {
    var c := Next(early, s, Clear);
    run := [Register(u)] + [];
    var m := c;
    if c.pcs[u].Start? {
      m := Next(early, c, Lookup(u, false));
    }
    var e := Next(early, m, Register(u));
    Unfold(early, m, Register(u), []);
    assert Leading(e.pcs[t]) && Leading(e.pcs[u]) && t != u;
    if c.pcs[u].Start? {
      Unfold(early, c, Lookup(u, false), run);
      run := [Lookup(u, false)] + run;
    }
  }

  /** One more clear() in a state such runs reach keeps one leader per key until the next one,
      whatever happens, exactly when no key that is being fetched has a caller yet to register.
      (Where callers of every key may still come, that is when nothing is being fetched.) */
  lemma ClearIsSafeIff(early: bool, s: Sys)
    requires ClearedInv(s) && Enabled(early, s, Clear)
    ensures var c := Next(early, s, Clear);
            (forall run | Valid(early, c, run) && NoClear(run) :: OneLeaderEach(After(early, c, run))) <==> !Exposed(s)
  {
    var c := Next(early, s, Clear);
    if Exposed(s) {
      var t: nat, u: nat :| ExposedBy(s, t, u);
      var run := ExposedBreaks(early, s, t, u);
    } else {
      ClearLeavesInv(early, s);
      forall run | Valid(early, c, run) && NoClear(run) ensures OneLeaderEach(After(early, c, run)) {
        NoClearIsUnexposed(early, c, run);
        ClearedRun(early, c, run);
      }
    }
  }
}
