/** The pruned, cleaned and evicted logs decide as complete admission histories would. */
module LimiterTheorems {
  import opened Numbers
  import opened LimiterModel

  /** Number of entries later than `after`. */
  function Count(h: Log, after: real): nat {
    if h == [] then 0 else (if h[0] > after then 1 else 0) + Count(h[1..], after)
  }

  ghost predicate Sorted(h: Log) {
    forall i, j | 0 <= i < j < |h| :: h[i] <= h[j]
  }

  // ---------- logs ----------

  lemma {:induction false} AllRecent(g: Log, after: real)
    requires forall i | 0 <= i < |g| :: g[i] > after
    ensures Recent(g, after) == g && Count(g, after) == |g|
  {
    if g == [] {
    } else {
      AllRecent(g[1..], after);
    }
  }

  lemma {:induction false} RecentIsSuffix(g: Log, after: real)
    requires Sorted(g)
    ensures var r := Recent(g, after);
            && |r| == Count(g, after) <= |g|
            && r == g[|g| - |r|..]
            && (forall i | 0 <= i < |g| - |r| :: g[i] <= after)
            && (forall i | |g| - |r| <= i < |g| :: g[i] > after)
  {
    if g == [] {
    } else if g[0] > after {
      AllRecent(g, after);
    } else {
      RecentIsSuffix(g[1..], after);
    }
  }

  /** In a sorted log the last Count entries are the late ones. */
  lemma CountCuts(h: Log, after: real)
    requires Sorted(h)
    ensures Count(h, after) <= |h|
    ensures forall i | 0 <= i < |h| :: h[i] > after <==> i >= |h| - Count(h, after)
  {
    RecentIsSuffix(h, after);
  }

  /** g is the end of h. */
  ghost predicate Suffix(g: Log, h: Log) {
    |g| <= |h| && g == h[|h| - |g|..]
  }

  lemma {:induction false} CountConcat(p: Log, g: Log, after: real)
    ensures Count(p + g, after) == Count(p, after) + Count(g, after)
  {
    if p == [] {
      assert p + g == g;
    } else {
      CountConcat(p[1..], g, after);
      assert (p + g)[1..] == p[1..] + g;
    }
  }

  lemma {:induction false} CountStale(p: Log, after: real)
    requires forall i | 0 <= i < |p| :: p[i] <= after
    ensures Count(p, after) == 0
  {
    if p == [] {
    } else {
      CountStale(p[1..], after);
    }
  }

  lemma SuffixCount(g: Log, h: Log, after: real)
    requires Suffix(g, h)
    ensures Count(g, after) <= Count(h, after)
    ensures (forall i | 0 <= i < |h| - |g| :: h[i] <= after) ==> Count(g, after) == Count(h, after)
  {
    var p := h[..|h| - |g|];
    assert h == p + g;
    CountConcat(p, g, after);
    if forall i | 0 <= i < |h| - |g| :: h[i] <= after {
      CountStale(p, after);
    }
  }

  lemma SuffixOfSuffix(r: Log, g: Log, h: Log)
    requires Suffix(r, g) && Suffix(g, h)
    ensures Suffix(r, h)
    ensures forall i | |h| - |g| <= i < |h| - |r| :: h[i] == g[i - (|h| - |g|)]
  {
  }

  // ---------- runs ----------

  /** The limiter with, for each identifier, all admissions ever made, and the identifiers that
      have lost live entries to capacity eviction. */
  datatype Sys = Sys(l: Limiter, hist: map<Ident, Log>, dropped: set<Ident>, clock: real)

  datatype Attempt = Attempt(id: Ident, now: real)

  function Hist(s: Sys, id: Ident): Log {
    if id in s.hist then s.hist[id] else []
  }

  /** A check by way of the cleaned tables m. */
  ghost predicate Via(c: Config, s: Sys, a: Attempt, n: Sys, v: Verdict, m: Limiter) {
    && Cleaned(c, false, s.l, a.now, m)
    && (n.l, v) == Judge(c, m, a.id, LimitOf(c, a.id), a.now)
    && n.dropped == s.dropped + Evicted(c, s.l, a.now, m)
  }

  ghost predicate Step(c: Config, s: Sys, a: Attempt, n: Sys, v: Verdict) {
    && s.clock <= a.now == n.clock
    && (exists m :: Via(c, s, a, n, v, m))
    && n.hist == if v.Admitted? then s.hist[a.id := Hist(s, a.id) + [a.now]] else s.hist
  }

  ghost predicate Run(c: Config, states: seq<Sys>, attempts: seq<Attempt>, verdicts: seq<Verdict>) {
    && |states| == |attempts| + 1 && |verdicts| == |attempts|
    && (exists t, u :: states[0] == Sys(Limiter(map[], map[], t), map[], {}, u))
    && forall i | 0 <= i < |attempts| :: Step(c, states[i], attempts[i], states[i + 1], verdicts[i])
  }

  // ---------- one identifier at a time ----------

  /** The log kept for one identifier, its complete history, whether no eviction has hit it. */
  datatype One = One(log: Log, full: Log, whole: bool, clock: real)

  function OneOf(s: Sys, id: Ident): One {
    One(LogOf(s.l, id), Hist(s, id), id !in s.dropped, s.clock)
  }

  /** Cleanup left the log as it was, or removed it: as expired, or (not whole) as evicted. */
  ghost predicate Cleansed(c: Config, before: Log, whole: bool, now: real, kept: Log) {
    kept == before || (kept == [] && (!whole || before == [] || Last(before) <= now - c.window))
  }

  /** What a step does to one identifier, by way of the log `kept` after cleanup. */
  ghost predicate OneStep(c: Config, o: One, asked: bool, limit: int, now: real, n: One, admitted: bool, kept: Log) {
    && o.clock <= now == n.clock && (n.whole ==> o.whole) && Cleansed(c, o.log, n.whole, now, kept)
    && if asked then
         && (admitted <==> |Recent(kept, now - c.window)| < limit)
         && n.log == (if admitted then Recent(kept, now - c.window) + [now] else kept)
         && n.full == (if admitted then o.full + [now] else o.full)
       else n.log == kept && n.full == o.full
  }

  lemma CleanupLog(c: Config, l: Limiter, now: real, m: Limiter, id: Ident)
    requires Cleaned(c, false, l, now, m)
    ensures Cleansed(c, LogOf(l, id), id !in Evicted(c, l, now, m), now, LogOf(m, id))
  {
  }

  lemma JudgeOne(c: Config, m: Limiter, a: Attempt, limit: int, id: Ident)
    ensures var (n, v) := Judge(c, m, a.id, limit, a.now);
            var kept := LogOf(m, id);
            && v == Judgement(c, Recent(LogOf(m, a.id), a.now - c.window), limit, a.now)
            && (v.Admitted? <==> |Recent(LogOf(m, a.id), a.now - c.window)| < limit)
            && LogOf(n, id) == if a.id == id && v.Admitted? then Recent(kept, a.now - c.window) + [a.now] else kept
  {
  }

  lemma Project(c: Config, s: Sys, a: Attempt, n: Sys, v: Verdict, id: Ident) returns (kept: Log)
    requires Step(c, s, a, n, v)
    ensures OneStep(c, OneOf(s, id), a.id == id, LimitOf(c, id), a.now, OneOf(n, id), v.Admitted?, kept)
    ensures a.id == id ==> v == Judgement(c, Recent(kept, a.now - c.window), LimitOf(c, id), a.now)
  {
    hide Cleaned, Recent, Judge, Judgement;
    var m :| Via(c, s, a, n, v, m);
    CleanupLog(c, s.l, a.now, m, id);
    JudgeOne(c, m, a, LimitOf(c, a.id), id);
    kept := LogOf(m, id);
  }

  /** What is missing from the log is too old to matter, unless evicted. */
  ghost predicate Faithful(c: Config, o: One) {
    && Sorted(o.full) && (forall i | 0 <= i < |o.full| :: o.full[i] <= o.clock)
    && Suffix(o.log, o.full)
    && (o.whole ==> forall i | 0 <= i < |o.full| - |o.log| :: o.full[i] <= o.clock - c.window)
  }

  /** Any limit+1 consecutive admissions span at least a window. */
  ghost predicate Spaced(h: Log, limit: int, w: real) {
    limit >= 1 && forall j | limit <= j < |h| :: h[j] - h[j - limit] >= w
  }

  ghost predicate OneInv(c: Config, limit: int, o: One) {
    && Faithful(c, o)
    && (limit < 1 ==> o.full == [])
    && (o.whole && limit >= 1 ==> Spaced(o.full, limit, c.window))
  }

  lemma AdmitKeepsSpaced(h: Log, limit: int, w: real, now: real)
    requires Sorted(h) && Spaced(h, limit, w) && Count(h, now - w) < limit
    ensures Spaced(h + [now], limit, w)
  {
    CountCuts(h, now - w);
  }

  lemma CleansedFaithful(c: Config, o: One, whole: bool, now: real, kept: Log)
    requires Faithful(c, o) && o.clock <= now && (whole ==> o.whole) && Cleansed(c, o.log, whole, now, kept)
    ensures Faithful(c, One(kept, o.full, whole, now))
  {
    if kept != o.log && o.log != [] {
      assert Last(o.log) == o.full[|o.full| - 1];
    }
  }

  lemma PrunedFaithful(c: Config, o: One)
    requires Faithful(c, o)
    ensures var r := Recent(o.log, o.clock - c.window);
            && Faithful(c, o.(log := r))
            && |r| <= Count(o.full, o.clock - c.window)
            && (o.whole ==> |r| == Count(o.full, o.clock - c.window))
  {
    hide Recent, Count;
    RecentIsSuffix(o.log, o.clock - c.window);
    SuffixOfSuffix(Recent(o.log, o.clock - c.window), o.log, o.full);
    SuffixCount(o.log, o.full, o.clock - c.window);
  }

  lemma AppendFaithful(c: Config, o: One)
    requires Faithful(c, o)
    ensures Faithful(c, o.(log := o.log + [o.clock], full := o.full + [o.clock]))
  {
  }

  lemma OneStepKeeps(c: Config, o: One, asked: bool, limit: int, now: real, n: One, admitted: bool, kept: Log)
    requires Faithful(c, o) && OneStep(c, o, asked, limit, now, n, admitted, kept)
    ensures Faithful(c, n)
    ensures asked && !admitted ==> Count(o.full, now - c.window) >= limit
    ensures asked && n.whole ==> (admitted <==> Count(o.full, now - c.window) < limit)
  {
    CleansedFaithful(c, o, n.whole, now, kept);
    var k := One(kept, o.full, n.whole, now);
    PrunedFaithful(c, k);
    AppendFaithful(c, k.(log := Recent(kept, now - c.window)));
  }

  /** A step keeps the invariant and decides by the complete history. */
  lemma OneStepDecides(c: Config, o: One, asked: bool, limit: int, now: real, n: One, admitted: bool, kept: Log)
    requires OneInv(c, limit, o) && OneStep(c, o, asked, limit, now, n, admitted, kept)
    ensures OneInv(c, limit, n)
    ensures asked && !admitted ==> Count(o.full, now - c.window) >= limit
    ensures asked && n.whole ==> (admitted <==> Count(o.full, now - c.window) < limit)
  {
    hide Recent, Count, Cleansed;
    OneStepKeeps(c, o, asked, limit, now, n, admitted, kept);
    if asked && admitted && n.whole && limit >= 1 {
      AdmitKeepsSpaced(o.full, limit, c.window, now);
    }
  }

  lemma InitiallyFaithful(c: Config, limit: int, o: One)
    requires o.log == o.full == []
    ensures OneInv(c, limit, o)
  {
  }

  lemma RecentOfSuffix(g: Log, h: Log, after: real)
    requires Sorted(g) && Sorted(h) && Suffix(g, h) && Count(g, after) == Count(h, after)
    ensures Recent(g, after) == Recent(h, after)
  {
    hide Recent, Count;
    RecentIsSuffix(g, after);
    RecentIsSuffix(h, after);
  }

  /** What cleanup kept of a whole log has the same late entries as the complete history. */
  lemma SameRecent(c: Config, o: One, whole: bool, now: real, kept: Log)
    requires Faithful(c, o) && o.clock <= now && whole && o.whole && Cleansed(c, o.log, whole, now, kept)
    ensures Recent(kept, now - c.window) == Recent(o.full, now - c.window)
  {
    hide Recent, Count, Cleansed;
    CleansedFaithful(c, o, whole, now, kept);
    SuffixCount(kept, o.full, now - c.window);
    RecentOfSuffix(kept, o.full, now - c.window);
  }

  lemma SameVerdict(c: Config, o: One, limit: int, now: real, n: One, admitted: bool, kept: Log)
    requires OneInv(c, limit, o) && n.whole && OneStep(c, o, true, limit, now, n, admitted, kept)
    ensures Recent(kept, now - c.window) == Recent(o.full, now - c.window)
  {
    SameRecent(c, o, n.whole, now, kept);
  }

  /** One check as one identifier sees it: the invariant is kept, and a verdict on it is that of
      the complete history unless entries of it have been evicted. */
  lemma StepDecides(c: Config, s: Sys, a: Attempt, n: Sys, v: Verdict, id: Ident)
    requires Step(c, s, a, n, v) && OneInv(c, LimitOf(c, id), OneOf(s, id))
    ensures OneInv(c, LimitOf(c, id), OneOf(n, id))
    ensures a.id == id && !v.Admitted? ==> Count(Hist(s, id), a.now - c.window) >= LimitOf(c, id)
    ensures a.id == id && id !in n.dropped ==>
              && (v.Admitted? <==> Count(Hist(s, id), a.now - c.window) < LimitOf(c, id))
              && v == Judgement(c, Recent(Hist(s, id), a.now - c.window), LimitOf(c, id), a.now)
  {
    hide Step, OneStep, OneInv, Judgement, Recent, Count;
    var kept := Project(c, s, a, n, v, id);
    OneStepDecides(c, OneOf(s, id), a.id == id, LimitOf(c, id), a.now, OneOf(n, id), v.Admitted?, kept);
    if a.id == id && id !in n.dropped {
      SameVerdict(c, OneOf(s, id), LimitOf(c, id), a.now, OneOf(n, id), v.Admitted?, kept);
    }
  }

  /** What a check does whatever it decides. */
  lemma StepFacts(c: Config, s: Sys, a: Attempt, n: Sys, v: Verdict)
    requires Step(c, s, a, n, v)
    ensures s.clock <= a.now == n.clock && s.dropped <= n.dropped
    ensures n.hist == if v.Admitted? then s.hist[a.id := Hist(s, a.id) + [a.now]] else s.hist
  {
  }

  lemma Begins(c: Config, states: seq<Sys>, attempts: seq<Attempt>, verdicts: seq<Verdict>, id: Ident)
    requires Run(c, states, attempts, verdicts)
    ensures OneOf(states[0], id).log == OneOf(states[0], id).full == []
  {
    hide Step;
  }

  lemma RunStep(c: Config, states: seq<Sys>, attempts: seq<Attempt>, verdicts: seq<Verdict>, i: nat)
    requires Run(c, states, attempts, verdicts) && i < |attempts|
    ensures Step(c, states[i], attempts[i], states[i + 1], verdicts[i])
  {
    hide Step;
  }

  lemma {:induction false} RunIsFaithful(c: Config, states: seq<Sys>, attempts: seq<Attempt>, verdicts: seq<Verdict>,
                                         i: nat, id: Ident)
    requires Run(c, states, attempts, verdicts) && i <= |attempts|
    ensures OneInv(c, LimitOf(c, id), OneOf(states[i], id))
  {
    hide Step, OneInv;
    if i == 0 {
      Begins(c, states, attempts, verdicts, id);
      InitiallyFaithful(c, LimitOf(c, id), OneOf(states[0], id));
    } else {
      RunIsFaithful(c, states, attempts, verdicts, i - 1, id);
      RunStep(c, states, attempts, verdicts, i - 1);
      StepDecides(c, states[i - 1], attempts[i - 1], states[i], verdicts[i - 1], id);
    }
  }

  // ---------- over whole runs ----------

  /** The verdict the complete history gives, and the history after it. */
  ghost predicate ByHistory(c: Config, s: Sys, a: Attempt, n: Sys, v: Verdict) {
    && (v.Admitted? <==> Count(Hist(s, a.id), a.now - c.window) < LimitOf(c, a.id))
    && n.hist == if v.Admitted? then s.hist[a.id := Hist(s, a.id) + [a.now]] else s.hist
  }

  /** The log that counts is empty exactly if nothing of the history is in the window. */
  lemma VerdictKinds(c: Config, a: Attempt, limit: int, o: One)
    ensures OneInv(c, limit, o) ==>
              var kept := Recent(o.full, a.now - c.window);
              && (Judgement(c, kept, limit, a.now).Admitted? <==> Count(o.full, a.now - c.window) < limit)
              && (Judgement(c, kept, limit, a.now).Crash? <==> limit < 1 && Count(o.full, a.now - c.window) == 0)
  {
    hide Trunc, Max, Spaced, Count, Recent;
    if OneInv(c, limit, o) {
      RecentIsSuffix(o.full, a.now - c.window);
    }
  }

  /** Pruning and expiry cleanup are invisible: the verdict on an identifier that has not been
      evicted is the one its complete admission history gives.  Eviction can only err on the
      side of admitting.  A limit below one makes the check of an empty log fail. */
  lemma DecidesByFullHistory(c: Config, states: seq<Sys>, attempts: seq<Attempt>, verdicts: seq<Verdict>, i: nat)
    requires Run(c, states, attempts, verdicts) && i < |attempts|
    ensures var s, a, n := states[i], attempts[i], states[i + 1];
            && (!verdicts[i].Admitted? ==> Count(Hist(s, a.id), a.now - c.window) >= LimitOf(c, a.id))
            && (a.id !in n.dropped ==> ByHistory(c, s, a, n, verdicts[i]))
            && (a.id !in n.dropped ==>
                  (verdicts[i].Crash? <==> LimitOf(c, a.id) < 1 && Count(Hist(s, a.id), a.now - c.window) == 0))
  {
    hide Step, OneInv;
    VerdictKinds(c, attempts[i], LimitOf(c, attempts[i].id), OneOf(states[i], attempts[i].id));
    RunIsFaithful(c, states, attempts, verdicts, i, attempts[i].id);
    RunStep(c, states, attempts, verdicts, i);
    StepFacts(c, states[i], attempts[i], states[i + 1], verdicts[i]);
    StepDecides(c, states[i], attempts[i], states[i + 1], verdicts[i], attempts[i].id);
  }

  /** Entries later than a and no later than a + w. */
  function Within(h: Log, a: real, w: real): int {
    Count(h, a) - Count(h, a + w)
  }

  lemma SpacedBoundsWindow(h: Log, limit: int, w: real, a: real)
    requires Sorted(h) && Spaced(h, limit, w)
    ensures Within(h, a, w) <= limit
  {
    CountCuts(h, a);
    CountCuts(h, a + w);
    var i := |h| - Count(h, a);
    if i + limit < |h| {
      assert h[i] > a && h[i + limit] - h[i] >= w;
      assert h[i + limit] > a + w;
    }
  }

  lemma OneBoundsWindow(c: Config, limit: int, o: One, a: real)
    requires OneInv(c, limit, o) && o.whole
    ensures Within(o.full, a, c.window) <= if o.full == [] then 0 else Max(0, limit)
  {
    if limit >= 1 {
      SpacedBoundsWindow(o.full, limit, c.window, a);
    }
  }

  /** Over whole runs: no window of the configured length, wherever it starts, holds more than
      the limit of admissions of one identifier that was never evicted. */
  lemma WindowNeverOverfull(c: Config, states: seq<Sys>, attempts: seq<Attempt>, verdicts: seq<Verdict>,
                            i: nat, id: Ident, a: real)
    requires Run(c, states, attempts, verdicts) && i <= |attempts| && id !in states[i].dropped
    ensures Within(Hist(states[i], id), a, c.window) <= Max(0, LimitOf(c, id))
  {
    hide Step, OneInv;
    RunIsFaithful(c, states, attempts, verdicts, i, id);
    OneBoundsWindow(c, LimitOf(c, id), OneOf(states[i], id), a);
  }

  // ---------- memory ----------

  /** The last request of the record, if it has any, is in the window. */
  predicate Alive(log: Log, after: real) {
    log != [] && log[|log| - 1] > after
  }

  /** Cleanup does nothing unless it is forced, a minute has passed or the table is full. */
  lemma CleanupWhen(c: Config, force: bool, l: Limiter, now: real, n: Limiter)
    requires Cleaned(c, force, l, now, n)
    ensures if force || now - l.lastCleanup >= 60.0 || |l.requests| >= c.maxTracked then n.lastCleanup == now
            else n == l
  {
  }

  /** When it does something, dead records go, of users just these; */
  lemma CleanupDropsDead(c: Config, l: Limiter, now: real, n: Limiter, id: Ident)
    requires Cleaned(c, true, l, now, n)
    ensures id in n.users <==> id in l.users && Alive(l.users[id], now - c.window)
    ensures id in n.users ==> n.users[id] == l.users[id]
    ensures id in n.requests ==>
              id in l.requests && n.requests[id] == l.requests[id] && Alive(l.requests[id], now - c.window)
  {
  }

  /** of addresses too, unless that does not make room: then the table is cut to half its bound, */
  lemma CleanupCuts(c: Config, l: Limiter, now: real, n: Limiter, id: Ident)
    requires Cleaned(c, true, l, now, n)
    requires id in l.requests && Alive(l.requests[id], now - c.window) && id !in n.requests
    ensures |n.requests| == if c.maxTracked >= 0 then c.maxTracked / 2 else 0
  {
    assert id in Unexpired(l.requests, now - c.window);
  }

  /** and no record that stays is less recent than one that is cut. */
  lemma CleanupKeepsRecent(c: Config, l: Limiter, now: real, n: Limiter, i: Ident, j: Ident)
    requires Cleaned(c, true, l, now, n)
    requires i in l.requests && Alive(l.requests[i], now - c.window) && i !in n.requests && j in n.requests
    ensures j in l.requests && l.requests[j] != []
    ensures l.requests[i][|l.requests[i]| - 1] <= l.requests[j][|l.requests[j]| - 1]
  {
    assert i in Unexpired(l.requests, now - c.window);
    CleanupDropsDead(c, l, now, n, j);
  }

  lemma CleanupMakesRoom(c: Config, l: Limiter, now: real, m: Limiter)
    requires Cleaned(c, false, l, now, m)
    ensures |m.requests| < Max(1, c.maxTracked)
  {
  }

  lemma WriteGrowsByOne(l: Limiter, id: Ident, log: Log)
    ensures |Write(l, id, log).requests| <= |l.requests| + 1
  {
    if !id.User? {
      assert Write(l, id, log).requests.Keys == l.requests.Keys + {id};
      assert |l.requests.Keys + {id}| <= |l.requests.Keys| + 1;
    }
  }

  /** The request table stays within its bound (one record at least is always kept). */
  lemma {:induction false} TableIsBounded(c: Config, states: seq<Sys>, attempts: seq<Attempt>, verdicts: seq<Verdict>,
                                          i: nat)
    requires Run(c, states, attempts, verdicts) && i <= |attempts|
    ensures |states[i].l.requests| <= Max(1, c.maxTracked)
  {
    if i > 0 {
      var s, n, a, v := states[i - 1], states[i], attempts[i - 1], verdicts[i - 1];
      assert Step(c, s, a, n, v);
      var m :| Via(c, s, a, n, v, m);
      CleanupMakesRoom(c, s.l, a.now, m);
      WriteGrowsByOne(m, a.id, Recent(LogOf(m, a.id), a.now - c.window) + [a.now]);
    }
  }

  // ---------- Retry-After ----------

  /** After a rejection, with no other admission of that identifier, the earliest instant at
      which a request passes is the oldest kept timestamp plus the window.  The integer told to
      the client never overstates the wait by more than rounding up to one second, and one
      second more is always enough. */
  lemma RetryAfterIsTight(c: Config, h: Log, limit: int, now: real, t: real)
    requires Sorted(h) && Spaced(h, limit, c.window) && (forall i | 0 <= i < |h| :: h[i] <= now)
    requires Count(h, now - c.window) >= limit && t >= now
    ensures var kept := Recent(h, now - c.window);
            && kept != [] && now < kept[0] + c.window
            && (Count(h, t - c.window) < limit <==> t >= kept[0] + c.window)
            && var wait := kept[0] + c.window - now;
               var v := Judgement(c, kept, limit, now);
               && v.Rejected? && v.retryAfter >= 1
               && (v.retryAfter as real <= wait || v.retryAfter == 1)
               && now + (v.retryAfter + 1) as real >= kept[0] + c.window
  {
    RecentIsSuffix(h, now - c.window);
    SpacedBoundsWindow(h, limit, c.window, now - c.window);
    CountCuts(h, now);
    CountCuts(h, now - c.window);
    CountCuts(h, t - c.window);
    CountStale(h, now);
    assert now - c.window + c.window == now;
    var kept := Recent(h, now - c.window);
    assert |kept| == limit && kept[0] == h[|h| - limit];
  }

  /** From attempt i on to just before attempt j, identifier id is admitted nothing. */
  ghost predicate Shunned(attempts: seq<Attempt>, verdicts: seq<Verdict>, i: nat, j: nat, id: Ident)
    requires |attempts| == |verdicts|
  {
    forall h | i <= h < j && h < |attempts| && attempts[h].id == id :: !verdicts[h].Admitted?
  }

  lemma {:induction false} Meanwhile(c: Config, states: seq<Sys>, attempts: seq<Attempt>, verdicts: seq<Verdict>,
                                     i: nat, j: nat, id: Ident)
    requires Run(c, states, attempts, verdicts) && i < j <= |attempts| && Shunned(attempts, verdicts, i, j, id)
    ensures Hist(states[j], id) == Hist(states[i], id)
    ensures attempts[i].now <= states[j].clock && states[i + 1].dropped <= states[j].dropped
    decreases j
  {
    hide Step;
    RunStep(c, states, attempts, verdicts, j - 1);
    StepFacts(c, states[j - 1], attempts[j - 1], states[j], verdicts[j - 1]);
    if j == i + 1 {
    } else {
      Meanwhile(c, states, attempts, verdicts, i, j - 1, id);
    }
  }

  /** The limiter's answer at i is that of the history, and the earliest admissible instant
      after it is told to within a second. */
  ghost predicate Tells(c: Config, h: Log, now: real, v: Verdict, later: real, admitted: bool) {
    var kept := Recent(h, now - c.window);
    && v.Rejected? && v.retryAfter >= 1 && kept != []
    && (admitted <==> later >= kept[0] + c.window)
    && (v.retryAfter as real <= kept[0] + c.window - now || v.retryAfter == 1)
    && now + (v.retryAfter + 1) as real >= kept[0] + c.window
  }

  lemma TellsByHistory(c: Config, limit: int, o: One, now: real, v: Verdict, later: real, admitted: bool)
    requires OneInv(c, limit, o) && o.whole && limit >= 1 && o.clock <= now <= later
    requires v == Judgement(c, Recent(o.full, now - c.window), limit, now)
    requires Count(o.full, now - c.window) >= limit
    requires admitted <==> Count(o.full, later - c.window) < limit
    ensures Tells(c, o.full, now, v, later, admitted)
  {
    hide Recent, Count, Judgement;
    RetryAfterIsTight(c, o.full, limit, now, later);
  }

  /** The same over whole runs.  After a rejected attempt and until something of that identifier
      is admitted again, its attempts pass from the oldest timestamp then kept plus the window
      on, and not before; and that is what the rejected client was told, to within a second. */
  lemma RetryAfterOverRuns(c: Config, states: seq<Sys>, attempts: seq<Attempt>, verdicts: seq<Verdict>, i: nat, j: nat)
    requires Run(c, states, attempts, verdicts) && i < j < |attempts| && attempts[i].id == attempts[j].id
    requires LimitOf(c, attempts[i].id) >= 1 && attempts[i].id !in states[j + 1].dropped
    requires Shunned(attempts, verdicts, i, j, attempts[i].id)
    ensures Tells(c, Hist(states[i], attempts[i].id), attempts[i].now, verdicts[i],
                  attempts[j].now, verdicts[j].Admitted?)
  {
    hide Step, OneInv, Recent, Count, Judgement, Tells;
    var id := attempts[i].id;
    assert !verdicts[i].Admitted?;
    Meanwhile(c, states, attempts, verdicts, i, j, id);
    RunStep(c, states, attempts, verdicts, i);
    RunStep(c, states, attempts, verdicts, j);
    StepFacts(c, states[i], attempts[i], states[i + 1], verdicts[i]);
    StepFacts(c, states[j], attempts[j], states[j + 1], verdicts[j]);
    RunIsFaithful(c, states, attempts, verdicts, i, id);
    RunIsFaithful(c, states, attempts, verdicts, j, id);
    StepDecides(c, states[i], attempts[i], states[i + 1], verdicts[i], id);
    StepDecides(c, states[j], attempts[j], states[j + 1], verdicts[j], id);
    TellsByHistory(c, LimitOf(c, id), OneOf(states[i], id), attempts[i].now, verdicts[i],
                   attempts[j].now, verdicts[j].Admitted?);
  }
}
