/** What one client address gets from the whole limiter, over runs of dispatches of any clients
    with Redis failing at any moment. */
module LimiterFailover {
  import opened Numbers
  import opened LimiterModel
  import opened LimiterTheorems
  import opened RedisLimiter

  /** The server with what the theorems measure: complete admission histories of the memory
      limiter, its evictions, and for each address the times at which Redis let it pass. */
  datatype World = World(server: Server, hist: map<Ident, Log>, dropped: set<Ident>, clock: real,
                         byRedis: map<string, Log>)

  function Memory(w: World): Sys {
    Sys(w.server.l, w.hist, w.dropped, w.clock)
  }

  function ByRedis(w: World, ip: string): Log {
    if ip in w.byRedis then w.byRedis[ip] else []
  }

  function UserKey(r: Request): Ident {
    User(if r.users == [] then "" else r.users[0])
  }

  /** A check of the memory limiter, if one is asked for; otherwise only time passes. */
  ghost predicate Checked(c: Config, s: Sys, asked: bool, a: Attempt, n: Sys, v: Verdict, before: Verdict) {
    if asked then Step(c, s, a, n, v)
    else s.clock <= a.now && n == s.(clock := a.now) && v == before
  }

  /** s1, v1: after Redis.  m, v2: after the check of the address. */
  datatype Middle = Middle(s1: Server, v1: Verdict, answered: bool, m: Sys, v2: Verdict)

  ghost predicate StepVia(c: Config, failOpen: bool, w: World, r: Request, n: World, v: Verdict, x: Middle) {
    && RedisStep(c, w.server, r, x.s1, x.v1, x.answered)
    && Checked(c, Memory(w), !x.answered, Attempt(AddressKey(failOpen, r), r.now), x.m, x.v2, x.v1)
    && Checked(c, x.m, x.v2.Admitted? && r.users != [], Attempt(UserKey(r), r.now), Memory(n), v, x.v2)
    && n.server.useRedis == x.s1.useRedis && n.server.zsets == x.s1.zsets
    && n.byRedis == if x.answered && x.v2.Admitted? then w.byRedis[r.ip := ByRedis(w, r.ip) + [r.now]] else w.byRedis
  }

  ghost predicate WorldStep(c: Config, failOpen: bool, w: World, r: Request, n: World, v: Verdict) {
    exists x :: StepVia(c, failOpen, w, r, n, v, x)
  }

  // ---------- these steps are the dispatches of the limiter ----------

  lemma CheckCarries(c: Config, s: Sys, a: Attempt, l: Limiter, v: Verdict) returns (n: Sys)
    requires s.clock <= a.now && Check(c, s.l, a.id, a.now, l, v)
    ensures Step(c, s, a, n, v) && n.l == l
  {
    hide Cleaned, Judge;
    var m :| Cleaned(c, false, s.l, a.now, m) && (l, v) == Judge(c, m, a.id, LimitOf(c, a.id), a.now);
    var hist := if v.Admitted? then s.hist[a.id := Hist(s, a.id) + [a.now]] else s.hist;
    n := Sys(l, hist, s.dropped + Evicted(c, s.l, a.now, m), a.now);
    assert Via(c, s, a, n, v, m);
  }

  lemma StepChecks(c: Config, s: Sys, a: Attempt, n: Sys, v: Verdict)
    requires Step(c, s, a, n, v)
    ensures Check(c, s.l, a.id, a.now, n.l, v)
  {
    hide Cleaned, Judge;
    var m :| Via(c, s, a, n, v, m);
  }

  /** Every dispatch is a step ... */
  lemma DispatchCarries(c: Config, failOpen: bool, w: World, r: Request, server: Server, v: Verdict) returns (n: World)
    requires w.clock <= r.now && Dispatched(c, failOpen, w.server, r, server, v)
    ensures WorldStep(c, failOpen, w, r, n, v) && n.server == server
  {
    hide Check, Step, RedisStep;
    var s1, v1, answered, l2, v2 :| DispatchedVia(c, failOpen, w.server, r, server, v, s1, v1, answered, l2, v2);
    var m := Memory(w).(clock := r.now);
    if !answered {
      RedisLeavesMemory(c, w.server, r, s1, v1, answered);
      m := CheckCarries(c, Memory(w), Attempt(AddressKey(failOpen, r), r.now), l2, v2);
      StepFacts(c, Memory(w), Attempt(AddressKey(failOpen, r), r.now), m, v2);
    } else {
      RedisLeavesMemory(c, w.server, r, s1, v1, answered);
    }
    var e := m;
    if v2.Admitted? && r.users != [] {
      e := CheckCarries(c, m, Attempt(UserKey(r), r.now), server.l, v);
    }
    n := World(server, e.hist, e.dropped, e.clock,
               if answered && v2.Admitted? then w.byRedis[r.ip := ByRedis(w, r.ip) + [r.now]] else w.byRedis);
    assert Memory(n) == e;
    assert StepVia(c, failOpen, w, r, n, v, Middle(s1, v1, answered, m, v2));
  }

  lemma RedisLeavesMemory(c: Config, s: Server, r: Request, n: Server, v: Verdict, answered: bool)
    requires RedisStep(c, s, r, n, v, answered)
    ensures n.l == s.l && n.useRedis == answered && (answered ==> s.useRedis)
  {
  }

  /** ... and every step a dispatch. */
  lemma StepDispatches(c: Config, failOpen: bool, w: World, r: Request, n: World, v: Verdict)
    requires WorldStep(c, failOpen, w, r, n, v)
    ensures Dispatched(c, failOpen, w.server, r, n.server, v)
  {
    hide Check, Step, RedisStep;
    var x :| StepVia(c, failOpen, w, r, n, v, x);
    RedisLeavesMemory(c, w.server, r, x.s1, x.v1, x.answered);
    if !x.answered {
      StepChecks(c, Memory(w), Attempt(AddressKey(failOpen, r), r.now), x.m, x.v2);
    }
    if x.v2.Admitted? && r.users != [] {
      StepChecks(c, x.m, Attempt(UserKey(r), r.now), Memory(n), v);
    }
    assert DispatchedVia(c, failOpen, w.server, r, n.server, v, x.s1, x.v1, x.answered, x.m.l, x.v2);
  }

  /** A process has just started; Redis may be in use or not, and hold anything. */
  ghost predicate Fresh(w: World) {
    w.server.l.requests == w.server.l.users == map[] && w.hist == map[] && w.dropped == {} && w.byRedis == map[]
  }

  ghost predicate DispatchRun(c: Config, failOpen: bool, worlds: seq<World>, requests: seq<Request>,
                              verdicts: seq<Verdict>)
  {
    && |worlds| == |requests| + 1 && |verdicts| == |requests| && Fresh(worlds[0])
    && forall i | 0 <= i < |requests| :: WorldStep(c, failOpen, worlds[i], requests[i], worlds[i + 1], verdicts[i])
  }

  /** Any sequence of dispatches of one server, the clock never running backwards, is such a run. */
  lemma {:induction false} EveryRunIsCarried(c: Config, failOpen: bool, servers: seq<Server>, requests: seq<Request>,
                                             verdicts: seq<Verdict>) returns (worlds: seq<World>)
    requires |servers| == |requests| + 1 && |verdicts| == |requests|
    requires servers[0].l.requests == servers[0].l.users == map[]
    requires forall i | 0 <= i < |requests| ::
               Dispatched(c, failOpen, servers[i], requests[i], servers[i + 1], verdicts[i])
    requires forall i, j | 0 <= i < j < |requests| :: requests[i].now <= requests[j].now
    ensures DispatchRun(c, failOpen, worlds, requests, verdicts)
    ensures forall i | 0 <= i < |worlds| :: worlds[i].server == servers[i]
    ensures requests != [] ==> worlds[|requests|].clock == requests[|requests| - 1].now
    decreases |requests|
  {
    hide Dispatched, WorldStep;
    var n := |requests|;
    if n == 0 {
      worlds := [World(servers[0], map[], {}, 0.0, map[])];
    } else {
      worlds := EveryRunIsCarried(c, failOpen, servers[..n], requests[..n - 1], verdicts[..n - 1]);
      var w := worlds[n - 1];
      if n == 1 {
        w := World(servers[0], map[], {}, requests[0].now, map[]);
        worlds := [w];
      }
      var next := DispatchCarries(c, failOpen, w, requests[n - 1], servers[n], verdicts[n - 1]);
      StepTime(c, failOpen, w, requests[n - 1], next, verdicts[n - 1]);
      worlds := worlds + [next];
    }
  }

  lemma StepTime(c: Config, failOpen: bool, w: World, r: Request, n: World, v: Verdict)
    requires WorldStep(c, failOpen, w, r, n, v)
    ensures w.clock <= r.now == n.clock
  {
    hide Step, RedisStep;
    var x :| StepVia(c, failOpen, w, r, n, v, x);
    Summarize(c, failOpen, w, r, n, v, x);
  }

  // ---------- one step, as seen by the addresses ----------

  /** Redis (answered) or the memory check of the address let the request pass (passed). */
  ghost predicate Effect(failOpen: bool, w: World, r: Request, n: World, v: Verdict, answered: bool, passed: bool) {
    && w.clock <= r.now == n.clock && (v.Admitted? ==> passed)
    && n.server.useRedis == answered && (answered ==> w.server.useRedis)
    && n.byRedis == (if answered && passed then w.byRedis[r.ip := ByRedis(w, r.ip) + [r.now]] else w.byRedis)
    && forall id: Ident :: !id.User? ==>
         Hist(Memory(n), id) == Hist(Memory(w), id) + Entry(!answered && passed && id == AddressKey(failOpen, r), r.now)
  }

  function Entry(there: bool, t: real): Log {
    if there then [t] else []
  }

  lemma CheckedFacts(c: Config, s: Sys, asked: bool, a: Attempt, n: Sys, v: Verdict, before: Verdict, id: Ident)
    requires Checked(c, s, asked, a, n, v, before)
    ensures s.clock <= a.now == n.clock
    ensures Hist(n, id) == Hist(s, id) + Entry(asked && v.Admitted? && a.id == id, a.now)
  {
    hide Step;
    if asked {
      StepFacts(c, s, a, n, v);
    }
  }

  lemma AddressHistory(c: Config, failOpen: bool, w: World, r: Request, n: World, v: Verdict, x: Middle, id: Ident)
    requires StepVia(c, failOpen, w, r, n, v, x)
    ensures w.clock <= r.now == n.clock
    ensures !id.User? ==>
              var entry := Entry(!x.answered && x.v2.Admitted? && id == AddressKey(failOpen, r), r.now);
              Hist(Memory(n), id) == Hist(Memory(w), id) + entry
  {
    hide Checked, RedisStep, Hist;
    var address, user := Attempt(AddressKey(failOpen, r), r.now), Attempt(UserKey(r), r.now);
    CheckedFacts(c, Memory(w), !x.answered, address, x.m, x.v2, x.v1, id);
    CheckedFacts(c, x.m, x.v2.Admitted? && r.users != [], user, Memory(n), v, x.v2, id);
  }

  lemma Summarize(c: Config, failOpen: bool, w: World, r: Request, n: World, v: Verdict, x: Middle)
    requires StepVia(c, failOpen, w, r, n, v, x)
    ensures Effect(failOpen, w, r, n, v, x.answered, x.v2.Admitted?)
  {
    hide Checked, RedisStep, Hist;
    RedisLeavesMemory(c, w.server, r, x.s1, x.v1, x.answered);
    AddressHistory(c, failOpen, w, r, n, v, x, UserKey(r));
    forall id: Ident | !id.User?
      ensures Hist(Memory(n), id)
           == Hist(Memory(w), id) + Entry(!x.answered && x.v2.Admitted? && id == AddressKey(failOpen, r), r.now)
    {
      AddressHistory(c, failOpen, w, r, n, v, x, id);
    }
    LastWord(c, x.m, x.v2.Admitted? && r.users != [], Attempt(UserKey(r), r.now), Memory(n), v, x.v2);
  }

  /** A check that is not asked for changes no verdict. */
  lemma LastWord(c: Config, s: Sys, asked: bool, a: Attempt, n: Sys, v: Verdict, before: Verdict)
    requires Checked(c, s, asked, a, n, v, before)
    ensures !asked ==> v == before
  {
    hide Step;
  }

  // ---------- Redis and one address ----------

  /** What an answer of Redis says and does about the address ip. */
  lemma RedisAnswer(c: Config, s: Server, r: Request, n: Server, v: Verdict, ip: string)
    requires RedisStep(c, s, r, n, v, true)
    ensures ip != r.ip ==> ZsetOf(n.zsets, Ip(ip)) == ZsetOf(s.zsets, Ip(ip))
    ensures ip == r.ip ==> ZsetOf(n.zsets, Ip(ip)) == Pipeline(c, ZsetOf(s.zsets, Ip(ip)), r.now).0
    ensures ip == r.ip && v.Admitted? ==> Pipeline(c, ZsetOf(s.zsets, Ip(ip)), r.now).1 < c.maxRequests
  {
    hide Pipeline;
    if ip == r.ip {
      FirstKey(c, s.zsets, Keys(r), r.now);
    } else {
      OtherKeys(c, s.zsets, Keys(r), r.now, Ip(ip));
    }
  }

  /** Some request of the address was made at time t. */
  ghost predicate MadeAt(requests: seq<Request>, ip: string, t: real) {
    exists i :: 0 <= i < |requests| && requests[i].ip == ip && requests[i].now == t
  }

  /** The late entries of a log are members of the set. */
  ghost predicate InZset(passes: Log, after: real, z: Zset) {
    forall k | 0 <= k < |passes| && passes[k] > after :: At(passes[k]) in z
  }

  ghost predicate Regular(c: Config, passes: Log, requests: seq<Request>, ip: string) {
    && Increasing(passes)
    && (if c.maxRequests >= 1 then Spaced(passes, c.maxRequests, c.window) else passes == [])
    && forall k | 0 <= k < |passes| :: MadeAt(requests, ip, passes[k])
  }

  ghost predicate RedisInv(c: Config, w: World, requests: seq<Request>, ip: string) {
    && Regular(c, ByRedis(w, ip), requests, ip)
    && (w.server.useRedis ==> InZset(ByRedis(w, ip), w.clock - c.window, ZsetOf(w.server.zsets, Ip(ip))))
  }

  lemma StaysRegular(c: Config, passes: Log, requests: seq<Request>, r: Request, ip: string)
    requires Regular(c, passes, requests, ip)
    ensures Regular(c, passes, requests + [r], ip)
  {
    forall k | 0 <= k < |passes| ensures MadeAt(requests + [r], ip, passes[k]) {
      assert MadeAt(requests, ip, passes[k]);
      var i :| 0 <= i < |requests| && requests[i].ip == ip && requests[i].now == passes[k];
      assert (requests + [r])[i] == requests[i];
    }
  }

  lemma AdmissionIsRegular(c: Config, passes: Log, requests: seq<Request>, r: Request, z: Zset, clock: real)
    requires Regular(c, passes, requests, r.ip) && InZset(passes, clock - c.window, z) && clock <= r.now
    requires forall t | MadeAt(requests, r.ip, t) :: t < r.now
    requires Pipeline(c, z, r.now).1 < c.maxRequests
    ensures Regular(c, passes + [r.now], requests + [r], r.ip)
  {
    StaysRegular(c, passes, requests, r, r.ip);
    CountDistinct(passes, r.now - c.window, Drop(z, r.now - c.window));
    AdmitKeepsSpaced(passes, c.maxRequests, c.window, r.now);
    assert (requests + [r])[|requests|] == r;
    assert MadeAt(requests + [r], r.ip, r.now);
  }

  lemma PipelineKeeps(c: Config, passes: Log, z: Zset, clock: real, now: real, there: bool)
    requires InZset(passes, clock - c.window, z) && clock <= now
    ensures InZset(passes + Entry(there, now), now - c.window, Pipeline(c, z, now).0)
  {
  }

  lemma StepKeepsRedis(c: Config, failOpen: bool, w: World, r: Request, n: World, v: Verdict, x: Middle,
                       requests: seq<Request>, ip: string)
    requires StepVia(c, failOpen, w, r, n, v, x) && RedisInv(c, w, requests, ip)
    requires r.ip == ip ==> forall t | MadeAt(requests, ip, t) :: t < r.now
    ensures RedisInv(c, n, requests + [r], ip)
  {
    hide Checked, RedisStep, Pipeline, Regular, InZset, MadeAt;
    Summarize(c, failOpen, w, r, n, v, x);
    StaysRegular(c, ByRedis(w, ip), requests, r, ip);
    if x.answered {
      var z := ZsetOf(w.server.zsets, Ip(ip));
      RedisAnswer(c, w.server, r, x.s1, x.v1, ip);
      LastWord(c, Memory(w), false, Attempt(AddressKey(failOpen, r), r.now), x.m, x.v2, x.v1);
      if ip == r.ip {
        PipelineKeeps(c, ByRedis(w, ip), z, w.clock, r.now, x.v2.Admitted?);
        assert ByRedis(w, ip) + [] == ByRedis(w, ip);
        if x.v2.Admitted? {
          AdmissionIsRegular(c, ByRedis(w, ip), requests, r, z, w.clock);
        }
      } else {
        LaterInZset(ByRedis(w, ip), w.clock - c.window, r.now - c.window, z);
      }
    }
  }

  lemma LaterInZset(passes: Log, after: real, later: real, z: Zset)
    requires InZset(passes, after, z) && after <= later
    ensures InZset(passes, later, z)
  {
  }

  // ---------- memory and one address ----------

  ghost predicate MemoryInv(c: Config, w: World, ip: string) {
    && OneInv(c, c.maxRequests, OneOf(Memory(w), Ip(ip)))
    && OneInv(c, c.emergencyCap, OneOf(Memory(w), Emergency(ip)))
  }

  lemma CheckedKeeps(c: Config, s: Sys, asked: bool, a: Attempt, n: Sys, v: Verdict, before: Verdict, id: Ident)
    requires Checked(c, s, asked, a, n, v, before) && OneInv(c, LimitOf(c, id), OneOf(s, id))
    ensures OneInv(c, LimitOf(c, id), OneOf(n, id))
  {
    hide Step, Spaced;
    if asked {
      StepDecides(c, s, a, n, v, id);
    }
  }

  lemma StepKeepsMemory(c: Config, failOpen: bool, w: World, r: Request, n: World, v: Verdict, x: Middle, ip: string)
    requires StepVia(c, failOpen, w, r, n, v, x) && MemoryInv(c, w, ip)
    ensures MemoryInv(c, n, ip)
  {
    hide Checked, RedisStep, OneInv;
    var address, user := Attempt(AddressKey(failOpen, r), r.now), Attempt(UserKey(r), r.now);
    CheckedKeeps(c, Memory(w), !x.answered, address, x.m, x.v2, x.v1, Ip(ip));
    CheckedKeeps(c, Memory(w), !x.answered, address, x.m, x.v2, x.v1, Emergency(ip));
    CheckedKeeps(c, x.m, x.v2.Admitted? && r.users != [], user, Memory(n), v, x.v2, Ip(ip));
    CheckedKeeps(c, x.m, x.v2.Admitted? && r.users != [], user, Memory(n), v, x.v2, Emergency(ip));
  }

  // ---------- who pays for what ----------

  /** Some request falls under that record of the memory limiter if Redis does not answer. */
  ghost predicate FallsUnder(failOpen: bool, requests: seq<Request>, id: Ident) {
    exists i :: 0 <= i < |requests| && AddressKey(failOpen, requests[i]) == id
  }

  ghost predicate OnlyAfterFailover(failOpen: bool, w: World, requests: seq<Request>, id: Ident) {
    Hist(Memory(w), id) != [] ==> !w.server.useRedis && FallsUnder(failOpen, requests, id)
  }

  /** up: Redis was in use at the start. */
  ghost predicate ShareInv(failOpen: bool, up: bool, w: World, requests: seq<Request>, ip: string) {
    && (w.server.useRedis || ByRedis(w, ip) != [] ==> up)
    && OnlyAfterFailover(failOpen, w, requests, Ip(ip))
    && OnlyAfterFailover(failOpen, w, requests, Emergency(ip))
  }

  lemma StaysUnder(failOpen: bool, requests: seq<Request>, r: Request, id: Ident)
    ensures FallsUnder(failOpen, requests, id) ==> FallsUnder(failOpen, requests + [r], id)
    ensures AddressKey(failOpen, r) == id ==> FallsUnder(failOpen, requests + [r], id)
  {
    if FallsUnder(failOpen, requests, id) {
      var i :| 0 <= i < |requests| && AddressKey(failOpen, requests[i]) == id;
      assert (requests + [r])[i] == requests[i];
    }
    assert (requests + [r])[|requests|] == r;
  }

  lemma StepKeepsShares(failOpen: bool, up: bool, w: World, r: Request, n: World, v: Verdict,
                        answered: bool, passed: bool, requests: seq<Request>, ip: string)
    requires Effect(failOpen, w, r, n, v, answered, passed) && ShareInv(failOpen, up, w, requests, ip)
    ensures ShareInv(failOpen, up, n, requests + [r], ip)
  {
    hide FallsUnder, Hist, AddressKey;
    StaysUnder(failOpen, requests, r, Ip(ip));
    StaysUnder(failOpen, requests, r, Emergency(ip));
  }

  /** Times of the requests of an address that were let through to the application. */
  function Served(requests: seq<Request>, verdicts: seq<Verdict>, ip: string): Log
    requires |requests| == |verdicts|
  {
    if requests == [] then []
    else
      var n := |requests| - 1;
      Served(requests[..n], verdicts[..n], ip) + Entry(requests[n].ip == ip && verdicts[n].Admitted?, requests[n].now)
  }

  /** Entries of the logs that let the address pass, in the window after a. */
  function Allowed(c: Config, w: World, ip: string, a: real): int {
    Within(ByRedis(w, ip), a, c.window)
    + Within(Hist(Memory(w), Ip(ip)), a, c.window) + Within(Hist(Memory(w), Emergency(ip)), a, c.window)
  }

  function Hit(there: bool, t: real, a: real, w: real): int {
    if there && a < t <= a + w then 1 else 0
  }

  lemma WithinGrows(h: Log, there: bool, t: real, a: real, w: real)
    requires w >= 0.0
    ensures Within(h + Entry(there, t), a, w) == Within(h, a, w) + Hit(there, t, a, w)
  {
    CountConcat(h, Entry(there, t), a);
    CountConcat(h, Entry(there, t), a + w);
    assert there ==> Entry(there, t)[1..] == [];
  }

  lemma StepKeepsTotal(c: Config, failOpen: bool, w: World, r: Request, n: World, v: Verdict,
                       answered: bool, passed: bool, served: Log, ip: string, a: real)
    requires Effect(failOpen, w, r, n, v, answered, passed) && c.window >= 0.0
    requires Within(served, a, c.window) <= Allowed(c, w, ip, a)
    ensures Within(served + Entry(r.ip == ip && v.Admitted?, r.now), a, c.window) <= Allowed(c, n, ip, a)
  {
    hide Hist, Within, Entry;
    var address := AddressKey(failOpen, r);
    WithinGrows(served, r.ip == ip && v.Admitted?, r.now, a, c.window);
    WithinGrows(ByRedis(w, ip), answered && passed && ip == r.ip, r.now, a, c.window);
    WithinGrows(Hist(Memory(w), Ip(ip)), !answered && passed && Ip(ip) == address, r.now, a, c.window);
    WithinGrows(Hist(Memory(w), Emergency(ip)), !answered && passed && Emergency(ip) == address, r.now, a, c.window);
    EntryCases(ByRedis(w, ip), answered && passed && ip == r.ip, r.now);
  }

  lemma EntryCases(h: Log, there: bool, t: real)
    ensures h + Entry(there, t) == if there then h + [t] else h
  {
  }

  // ---------- the bound ----------

  /** The requests of the address are made at distinct times. */
  ghost predicate Distinct(requests: seq<Request>, ip: string) {
    forall i, j | 0 <= i < j < |requests| && requests[i].ip == requests[j].ip == ip :: requests[i].now < requests[j].now
  }

  ghost predicate AddressInv(c: Config, failOpen: bool, up: bool, w: World, requests: seq<Request>, ip: string) {
    RedisInv(c, w, requests, ip) && MemoryInv(c, w, ip) && ShareInv(failOpen, up, w, requests, ip)
  }

  lemma FreshInv(c: Config, failOpen: bool, w: World, ip: string)
    requires Fresh(w)
    ensures AddressInv(c, failOpen, w.server.useRedis, w, [], ip)
  {
    hide OneInv;
    InitiallyFaithful(c, c.maxRequests, OneOf(Memory(w), Ip(ip)));
    InitiallyFaithful(c, c.emergencyCap, OneOf(Memory(w), Emergency(ip)));
  }

  lemma {:induction false} RunKeepsInv(c: Config, failOpen: bool, worlds: seq<World>, requests: seq<Request>,
                                       verdicts: seq<Verdict>, i: nat, ip: string, a: real)
    requires DispatchRun(c, failOpen, worlds, requests, verdicts) && i <= |requests| && Distinct(requests, ip)
    ensures AddressInv(c, failOpen, worlds[0].server.useRedis, worlds[i], requests[..i], ip)
    ensures c.window >= 0.0 ==>
              Within(Served(requests[..i], verdicts[..i], ip), a, c.window) <= Allowed(c, worlds[i], ip, a)
  {
    hide StepVia, RedisInv, MemoryInv, ShareInv, Within, Allowed;
    if i == 0 {
      FreshInv(c, failOpen, worlds[0], ip);
      NothingServed(c, worlds[0], ip, a);
    } else {
      var k := i - 1;
      RunKeepsInv(c, failOpen, worlds, requests, verdicts, k, ip, a);
      var w, r, n, v := worlds[k], requests[k], worlds[i], verdicts[k];
      assert WorldStep(c, failOpen, w, r, n, v);
      var x :| StepVia(c, failOpen, w, r, n, v, x);
      assert requests[..i] == requests[..k] + [r] && verdicts[..i][..k] == verdicts[..k];
      Summarize(c, failOpen, w, r, n, v, x);
      StepKeepsRedis(c, failOpen, w, r, n, v, x, requests[..k], ip);
      StepKeepsMemory(c, failOpen, w, r, n, v, x, ip);
      StepKeepsShares(failOpen, worlds[0].server.useRedis, w, r, n, v, x.answered, x.v2.Admitted?, requests[..k], ip);
      if c.window >= 0.0 {
        var served := Served(requests[..k], verdicts[..k], ip);
        StepKeepsTotal(c, failOpen, w, r, n, v, x.answered, x.v2.Admitted?, served, ip, a);
      }
    }
  }

  lemma NothingServed(c: Config, w: World, ip: string, a: real)
    requires Fresh(w)
    ensures Within([], a, c.window) <= Allowed(c, w, ip, a)
  {
  }

  /** What the fallback records a request of the address can fall under allow together. */
  ghost function FallbackLimit(c: Config, failOpen: bool, requests: seq<Request>, ip: string): int {
    (if FallsUnder(failOpen, requests, Ip(ip)) then Max(0, c.maxRequests) else 0)
    + (if FallsUnder(failOpen, requests, Emergency(ip)) then Max(0, c.emergencyCap) else 0)
  }

  /** Over every run of the limiter, whatever other clients do and whenever Redis fails: in any
      window one address, its records never evicted, is served at most the Redis limit if Redis
      was ever in use, plus, once Redis has failed, the limits of the fallback records its requests
      fall under. */
  lemma FailoverBound(c: Config, failOpen: bool, worlds: seq<World>, requests: seq<Request>, verdicts: seq<Verdict>,
                      ip: string, a: real)
    requires DispatchRun(c, failOpen, worlds, requests, verdicts) && Distinct(requests, ip)
    requires var end := worlds[|requests|]; Ip(ip) !in end.dropped && Emergency(ip) !in end.dropped
    ensures Within(Served(requests, verdicts, ip), a, c.window)
         <= (if worlds[0].server.useRedis then Max(0, c.maxRequests) else 0)
            + (if worlds[|requests|].server.useRedis then 0 else FallbackLimit(c, failOpen, requests, ip))
  {
    hide StepVia, WorldStep, FallsUnder, Within, Served, Hist, OneInv, Regular;
    RunKeepsInv(c, failOpen, worlds, requests, verdicts, |requests|, ip, a);
    assert requests[..|requests|] == requests && verdicts[..|verdicts|] == verdicts;
    var w := worlds[|requests|];
    RedisAtMost(c, ByRedis(w, ip), requests, ip, a);
    OneBoundsWindow(c, c.maxRequests, OneOf(Memory(w), Ip(ip)), a);
    OneBoundsWindow(c, c.emergencyCap, OneOf(Memory(w), Emergency(ip)), a);
    NoNegativeWindow(Served(requests, verdicts, ip), a, c.window);
  }

  /** A window of negative length holds nothing. */
  lemma {:induction false} NoNegativeWindow(h: Log, a: real, w: real)
    ensures w < 0.0 ==> Within(h, a, w) <= 0
  {
    if h == [] {
    } else {
      NoNegativeWindow(h[1..], a, w);
    }
  }

  lemma RedisAtMost(c: Config, passes: Log, requests: seq<Request>, ip: string, a: real)
    requires Regular(c, passes, requests, ip)
    ensures Within(passes, a, c.window) <= if passes == [] then 0 else Max(0, c.maxRequests)
  {
    if c.maxRequests >= 1 {
      SpacedBoundsWindow(passes, c.maxRequests, c.window, a);
    }
  }

  // ---------- users ----------

  /** Times of the requests of a user, from whatever address, that were let through. */
  function UserServed(requests: seq<Request>, verdicts: seq<Verdict>, user: string): Log
    requires |requests| == |verdicts|
  {
    if requests == [] then []
    else
      var n := |requests| - 1;
      var r := requests[n];
      UserServed(requests[..n], verdicts[..n], user)
      + Entry(r.users != [] && r.users[0] == user && verdicts[n].Admitted?, r.now)
  }

  /** Users have records of their own, which are never evicted for want of room. */
  ghost predicate UserInv(c: Config, w: World, user: string) {
    && (forall id | id in w.server.l.requests || id in w.dropped :: !id.User?)
    && OneInv(c, c.maxRequests, OneOf(Memory(w), User(user)))
  }

  lemma StepSparesUsers(c: Config, s: Sys, a: Attempt, n: Sys, v: Verdict)
    requires Step(c, s, a, n, v) && forall id | id in s.l.requests || id in s.dropped :: !id.User?
    ensures forall id | id in n.l.requests || id in n.dropped :: !id.User?
  {
  }

  lemma CheckedSparesUsers(c: Config, s: Sys, asked: bool, a: Attempt, n: Sys, v: Verdict, before: Verdict)
    requires Checked(c, s, asked, a, n, v, before) && forall id | id in s.l.requests || id in s.dropped :: !id.User?
    ensures forall id | id in n.l.requests || id in n.dropped :: !id.User?
  {
    hide Step;
    if asked {
      StepSparesUsers(c, s, a, n, v);
    }
  }

  lemma StepKeepsUser(c: Config, failOpen: bool, w: World, r: Request, n: World, v: Verdict, x: Middle, user: string)
    requires StepVia(c, failOpen, w, r, n, v, x) && UserInv(c, w, user)
    ensures UserInv(c, n, user) && OneInv(c, c.maxRequests, OneOf(x.m, User(user)))
    ensures forall id | id in x.m.l.requests || id in x.m.dropped :: !id.User?
    ensures Hist(x.m, User(user)) == Hist(Memory(w), User(user))
    ensures Hist(Memory(n), User(user))
         == Hist(Memory(w), User(user)) + Entry(r.users != [] && r.users[0] == user && v.Admitted?, r.now)
  {
    hide Checked, RedisStep, OneInv, Hist;
    RedisLeavesMemory(c, w.server, r, x.s1, x.v1, x.answered);
    var address, key := Attempt(AddressKey(failOpen, r), r.now), Attempt(UserKey(r), r.now);
    var asked := x.v2.Admitted? && r.users != [];
    CheckedSparesUsers(c, Memory(w), !x.answered, address, x.m, x.v2, x.v1);
    CheckedSparesUsers(c, x.m, asked, key, Memory(n), v, x.v2);
    CheckedKeeps(c, Memory(w), !x.answered, address, x.m, x.v2, x.v1, User(user));
    CheckedKeeps(c, x.m, asked, key, Memory(n), v, x.v2, User(user));
    CheckedFacts(c, Memory(w), !x.answered, address, x.m, x.v2, x.v1, User(user));
    CheckedFacts(c, x.m, asked, key, Memory(n), v, x.v2, User(user));
    LastWord(c, x.m, asked, key, Memory(n), v, x.v2);
  }

  lemma {:induction false} RunKeepsUser(c: Config, failOpen: bool, worlds: seq<World>, requests: seq<Request>,
                                        verdicts: seq<Verdict>, i: nat, user: string)
    requires DispatchRun(c, failOpen, worlds, requests, verdicts) && i <= |requests|
    ensures UserInv(c, worlds[i], user)
    ensures Hist(Memory(worlds[i]), User(user)) == UserServed(requests[..i], verdicts[..i], user)
  {
    hide StepVia, OneInv;
    if i == 0 {
      InitiallyFaithful(c, c.maxRequests, OneOf(Memory(worlds[0]), User(user)));
    } else {
      var k := i - 1;
      RunKeepsUser(c, failOpen, worlds, requests, verdicts, k, user);
      assert WorldStep(c, failOpen, worlds[k], requests[k], worlds[i], verdicts[k]);
      var x :| StepVia(c, failOpen, worlds[k], requests[k], worlds[i], verdicts[k], x);
      assert requests[..i][..k] == requests[..k] && verdicts[..i][..k] == verdicts[..k];
      StepKeepsUser(c, failOpen, worlds[k], requests[k], worlds[i], verdicts[k], x, user);
    }
  }

  /** Over every run: in any window one user is served at most the limit, from however many
      addresses, whether Redis answers or not. */
  lemma UserBound(c: Config, failOpen: bool, worlds: seq<World>, requests: seq<Request>, verdicts: seq<Verdict>,
                  user: string, a: real)
    requires DispatchRun(c, failOpen, worlds, requests, verdicts)
    ensures var served := UserServed(requests, verdicts, user);
            Within(served, a, c.window) <= (if c.maxRequests >= 0 then c.maxRequests else 0)
  {
    hide WorldStep, OneInv, Within, UserServed;
    RunKeepsUser(c, failOpen, worlds, requests, verdicts, |requests|, user);
    assert requests[..|requests|] == requests && verdicts[..|verdicts|] == verdicts;
    OneBoundsWindow(c, c.maxRequests, OneOf(Memory(worlds[|requests|]), User(user)), a);
  }

  // ---------- the verdict ----------

  /** The memory record of that identifier has room by its complete history. */
  predicate HasRoom(c: Config, w: World, id: Ident, limit: int, now: real) {
    Count(Hist(Memory(w), id), now - c.window) < limit
  }

  predicate ZsetHasRoom(c: Config, w: World, key: Ident, now: real) {
    |set m | m in ZsetOf(w.server.zsets, key) && m.t > now - c.window| < c.maxRequests
  }

  lemma CheckedDecides(c: Config, s: Sys, a: Attempt, n: Sys, v: Verdict, before: Verdict)
    requires Checked(c, s, true, a, n, v, before) && OneInv(c, LimitOf(c, a.id), OneOf(s, a.id)) && a.id !in n.dropped
    ensures v.Admitted? <==> Count(Hist(s, a.id), a.now - c.window) < LimitOf(c, a.id)
  {
    hide Step, OneInv, Count;
    StepDecides(c, s, a, n, v, a.id);
  }

  /** What every dispatch of a run decides: by Redis if it is in use and answers, else by the
      record of the address, for LLM routes when failing closed by its emergency record and cap;
      and for a named user by the user's record in memory as well. */
  lemma DispatchDecides(c: Config, failOpen: bool, worlds: seq<World>, requests: seq<Request>, verdicts: seq<Verdict>,
                        i: nat)
    requires DispatchRun(c, failOpen, worlds, requests, verdicts) && i < |requests|
    requires var ip := requests[i].ip; Ip(ip) !in worlds[i + 1].dropped && Emergency(ip) !in worlds[i + 1].dropped
    ensures var w, r := worlds[i], requests[i];
            var addressPasses :=
              if w.server.useRedis && r.redisOk then
                ZsetHasRoom(c, w, Ip(r.ip), r.now) && (r.users == [] || ZsetHasRoom(c, w, User(r.users[0]), r.now))
              else if r.llm && !failOpen then HasRoom(c, w, Emergency(r.ip), c.emergencyCap, r.now)
              else HasRoom(c, w, Ip(r.ip), c.maxRequests, r.now);
            && (verdicts[i].Admitted? <==>
                  addressPasses && (r.users == [] || HasRoom(c, w, User(r.users[0]), c.maxRequests, r.now)))
            && worlds[i + 1].server.useRedis == (w.server.useRedis && r.redisOk)
  {
    hide StepVia, WorldStep, OneInv, Count;
    var w, r, n, v := worlds[i], requests[i], worlds[i + 1], verdicts[i];
    var user := if r.users == [] then "" else r.users[0];
    RunKeepsMemory(c, failOpen, worlds, requests, verdicts, i, r.ip);
    RunKeepsUser(c, failOpen, worlds, requests, verdicts, i, user);
    assert WorldStep(c, failOpen, w, r, n, v);
    var x := Witness(c, failOpen, w, r, n, v);
    StepDecidesAll(c, failOpen, w, r, n, v, x, user);
  }

  lemma Witness(c: Config, failOpen: bool, w: World, r: Request, n: World, v: Verdict) returns (x: Middle)
    requires WorldStep(c, failOpen, w, r, n, v)
    ensures StepVia(c, failOpen, w, r, n, v, x)
  {
    hide StepVia;
    x :| StepVia(c, failOpen, w, r, n, v, x);
  }

  lemma {:induction false} RunKeepsMemory(c: Config, failOpen: bool, worlds: seq<World>, requests: seq<Request>,
                                          verdicts: seq<Verdict>, i: nat, ip: string)
    requires DispatchRun(c, failOpen, worlds, requests, verdicts) && i <= |requests|
    ensures MemoryInv(c, worlds[i], ip)
  {
    hide StepVia, OneInv;
    if i == 0 {
      InitiallyFaithful(c, c.maxRequests, OneOf(Memory(worlds[0]), Ip(ip)));
      InitiallyFaithful(c, c.emergencyCap, OneOf(Memory(worlds[0]), Emergency(ip)));
    } else {
      RunKeepsMemory(c, failOpen, worlds, requests, verdicts, i - 1, ip);
      assert WorldStep(c, failOpen, worlds[i - 1], requests[i - 1], worlds[i], verdicts[i - 1]);
      var x := Witness(c, failOpen, worlds[i - 1], requests[i - 1], worlds[i], verdicts[i - 1]);
      StepKeepsMemory(c, failOpen, worlds[i - 1], requests[i - 1], worlds[i], verdicts[i - 1], x, ip);
    }
  }

  lemma StepDecidesAll(c: Config, failOpen: bool, w: World, r: Request, n: World, v: Verdict, x: Middle, user: string)
    requires StepVia(c, failOpen, w, r, n, v, x) && MemoryInv(c, w, r.ip) && UserInv(c, w, user)
    requires user == if r.users == [] then "" else r.users[0]
    requires Ip(r.ip) !in n.dropped && Emergency(r.ip) !in n.dropped
    ensures var addressPasses :=
              if w.server.useRedis && r.redisOk then
                ZsetHasRoom(c, w, Ip(r.ip), r.now) && (r.users == [] || ZsetHasRoom(c, w, User(user), r.now))
              else if r.llm && !failOpen then HasRoom(c, w, Emergency(r.ip), c.emergencyCap, r.now)
              else HasRoom(c, w, Ip(r.ip), c.maxRequests, r.now);
            && (v.Admitted? <==> addressPasses && (r.users == [] || HasRoom(c, w, User(user), c.maxRequests, r.now)))
            && n.server.useRedis == (w.server.useRedis && r.redisOk)
  {
    hide Checked, RedisVerdict, OneInv, Hist, Count;
    var address, key := Attempt(AddressKey(failOpen, r), r.now), Attempt(UserKey(r), r.now);
    var asked := x.v2.Admitted? && r.users != [];
    StepKeepsUser(c, failOpen, w, r, n, v, x, user);
    DroppedGrows(c, x.m, asked, key, Memory(n), v, x.v2);
    if x.answered {
      LastWord(c, Memory(w), false, address, x.m, x.v2, x.v1);
      RedisPasses(c, w, r, x.s1, x.v1);
    } else {
      CheckedDecides(c, Memory(w), address, x.m, x.v2, x.v1);
    }
    LastWord(c, x.m, asked, key, Memory(n), v, x.v2);
    if asked {
      CheckedDecides(c, x.m, key, Memory(n), v, x.v2);
    }
  }

  lemma DroppedGrows(c: Config, s: Sys, asked: bool, a: Attempt, n: Sys, v: Verdict, before: Verdict)
    requires Checked(c, s, asked, a, n, v, before)
    ensures s.dropped <= n.dropped
  {
    hide Step;
    if asked {
      StepFacts(c, s, a, n, v);
    }
  }

  lemma RedisPasses(c: Config, w: World, r: Request, n: Server, v: Verdict)
    requires RedisStep(c, w.server, r, n, v, true)
    ensures v.Admitted? <==>
              ZsetHasRoom(c, w, Ip(r.ip), r.now) && (r.users == [] || ZsetHasRoom(c, w, User(r.users[0]), r.now))
  {
    hide Drop, RedisVerdict;
    AdmittedIff(c, w.server.zsets, Keys(r), r.now, v);
    LateCount(c, w.server.zsets, Ip(r.ip), r.now);
    assert Keys(r)[0] == Ip(r.ip);
    if r.users != [] {
      LateCount(c, w.server.zsets, User(r.users[0]), r.now);
      assert Keys(r)[1] == User(r.users[0]);
    }
  }

  lemma LateCount(c: Config, zsets: map<Ident, Zset>, key: Ident, now: real)
    ensures Pipeline(c, ZsetOf(zsets, key), now).1 == |set m | m in ZsetOf(zsets, key) && m.t > now - c.window|
  {
    assert Drop(ZsetOf(zsets, key), now - c.window) == set m | m in ZsetOf(zsets, key) && m.t > now - c.window;
  }
}
