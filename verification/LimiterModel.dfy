/** The sliding-window limiter: what one check may do to the two tables of timestamp logs. */
module LimiterModel {
  import opened Numbers

  /** `client_ip`, `emergency_<ip>` and `user_<id>`; the first two share the request table. */
  datatype Ident = Ip(name: string) | Emergency(name: string) | User(name: string)

  type Log = seq<real>

  datatype Config = Config(maxRequests: int, emergencyCap: int, window: real, maxTracked: int)

  datatype Limiter = Limiter(requests: map<Ident, Log>, users: map<Ident, Log>, lastCleanup: real)

  /** Crash: with a limit below one and an empty log the source indexes an empty list. */
  datatype Verdict = Admitted | Rejected(retryAfter: int) | Crash

  function LimitOf(c: Config, id: Ident): int {
    if id.Emergency? then c.emergencyCap else c.maxRequests
  }

  function Table(l: Limiter, id: Ident): map<Ident, Log> {
    if id.User? then l.users else l.requests
  }

  function LogOf(l: Limiter, id: Ident): Log {
    if id in Table(l, id) then Table(l, id)[id] else []
  }

  function Write(l: Limiter, id: Ident, log: Log): Limiter {
    if id.User? then l.(users := l.users[id := log]) else l.(requests := l.requests[id := log])
  }

  function Last(log: Log): real {
    if log == [] then 0.0 else log[|log| - 1]
  }

  function Recent(log: Log, after: real): Log {
    if log == [] then []
    else if log[0] > after then [log[0]] + Recent(log[1..], after)
    else Recent(log[1..], after)
  }

  /** The records that expiry cleanup keeps. */
  function Unexpired(m: map<Ident, Log>, after: real): map<Ident, Log> {
    map id | id in m && m[id] != [] && after < Last(m[id]) :: m[id]
  }

  ghost predicate SubMap(m: map<Ident, Log>, n: map<Ident, Log>) {
    forall id | id in m :: id in n && m[id] == n[id]
  }

  /** Down to `keep` records, those with the latest last request. */
  ghost predicate Trimmed(m: map<Ident, Log>, keep: int, n: map<Ident, Log>) {
    && SubMap(n, m)
    && |n| == (if keep >= 0 then keep else 0)
    && forall i, j | i in m && i !in n && j in n :: Last(m[i]) <= Last(m[j])
  }

  predicate Due(c: Config, l: Limiter, now: real) {
    now - l.lastCleanup >= 60.0 || |l.requests| >= c.maxTracked
  }

  ghost predicate Cleaned(c: Config, force: bool, l: Limiter, now: real, n: Limiter) {
    if !force && !Due(c, l, now) then n == l
    else
      var kept := Unexpired(l.requests, now - c.window);
      && n.lastCleanup == now
      && n.users == Unexpired(l.users, now - c.window)
      && if |kept| < c.maxTracked then n.requests == kept else Trimmed(kept, c.maxTracked / 2, n.requests)
  }

  /** Live records removed for want of room. */
  function Evicted(c: Config, l: Limiter, now: real, n: Limiter): set<Ident> {
    Unexpired(l.requests, now - c.window).Keys - n.requests.Keys
  }

  /** int(): truncation toward zero. */
  function Trunc(x: real): int {
    if x >= 0.0 then x.Floor else -((-x).Floor)
  }

  function Judgement(c: Config, kept: Log, limit: int, now: real): Verdict {
    if |kept| < limit then Admitted
    else if kept == [] then Crash
    else Rejected(Max(1, Trunc(c.window - (now - kept[0]))))
  }

  /** One in-memory check after cleanup; a rejection writes nothing. */
  function Judge(c: Config, l: Limiter, id: Ident, limit: int, now: real): (Limiter, Verdict) {
    var kept := Recent(LogOf(l, id), now - c.window);
    var v := Judgement(c, kept, limit, now);
    (if v.Admitted? then Write(l, id, kept + [now]) else l, v)
  }

  ghost predicate Check(c: Config, l: Limiter, id: Ident, now: real, n: Limiter, v: Verdict) {
    exists m :: Cleaned(c, false, l, now, m) && (n, v) == Judge(c, m, id, LimitOf(c, id), now)
  }

  // ---------- Redis ----------

  /** A sorted set whose members are the decimal timestamps: a set of times. */
  datatype Member = At(t: real)
  type Zset = set<Member>

  function Drop(z: Zset, after: real): Zset {
    set m | m in z && m.t > after
  }

  /** The pipeline of one key: drop, count, add (also when the count is too high). */
  function Pipeline(c: Config, z: Zset, now: real): (Zset, nat) {
    var kept := Drop(z, now - c.window);
    (kept + {At(now)}, |kept|)
  }

  /** One pipeline over the client's keys. */
  function PipelineAll(c: Config, zsets: map<Ident, Zset>, keys: seq<Ident>, now: real): map<Ident, Zset>
    decreases |keys|
  {
    if keys == [] then zsets
    else PipelineAll(c, zsets[keys[0] := Pipeline(c, ZsetOf(zsets, keys[0]), now).0], keys[1..], now)
  }

  function ZsetOf(zsets: map<Ident, Zset>, key: Ident): Zset {
    if key in zsets then zsets[key] else {}
  }

  ghost predicate IsOldest(z: Zset, t: real) {
    At(t) in z && forall u | u in z :: t <= u.t
  }

  /** The first key whose count before the pipeline had reached the limit rejects; the wait is
      computed from what the set holds after it. */
  ghost predicate RedisVerdict(c: Config, zsets: map<Ident, Zset>, keys: seq<Ident>, now: real, v: Verdict) {
    if keys == [] then v == Admitted
    else
      var (z, count) := Pipeline(c, ZsetOf(zsets, keys[0]), now);
      if count >= c.maxRequests then
        exists t :: IsOldest(z, t) && v == Rejected(Max(1, Trunc(c.window - (now - t))))
      else RedisVerdict(c, zsets, keys[1..], now, v)
  }

  /** The whole limiter of one process. */
  datatype Server = Server(l: Limiter, useRedis: bool, zsets: map<Ident, Zset>)

  /** Who asks, and what Redis does if it is asked. */
  datatype Request = Request(ip: string, users: seq<string>, llm: bool, now: real, redisOk: bool, applied: bool)

  function Keys(r: Request): seq<Ident> {
    [Ip(r.ip)] + if r.users == [] then [] else [User(r.users[0])]
  }

  /** The record of the address that memory is asked for. */
  function AddressKey(failOpen: bool, r: Request): Ident {
    if r.llm && !failOpen then Emergency(r.ip) else Ip(r.ip)
  }

  /** Redis asked: its verdict, or a failure that switches it off for good. */
  ghost predicate RedisStep(c: Config, s: Server, r: Request, n: Server, v: Verdict, answered: bool) {
    && n.l == s.l
    && answered == (s.useRedis && r.redisOk)
    && n.useRedis == answered
    && n.zsets == (if s.useRedis && (r.redisOk || r.applied) then PipelineAll(c, s.zsets, Keys(r), r.now) else s.zsets)
    && (answered ==> RedisVerdict(c, s.zsets, Keys(r), r.now, v))
  }

  /** Redis, else memory under the address (or, for LLM routes when failing closed, under its
      emergency record); whoever passes is also checked under the user in memory. */
  ghost predicate Dispatched(c: Config, failOpen: bool, s: Server, r: Request, n: Server, v: Verdict) {
    exists s1, v1, answered, l2, v2 :: DispatchedVia(c, failOpen, s, r, n, v, s1, v1, answered, l2, v2)
  }

  /** s1, v1: after Redis; l2, v2: after the check of the address. */
  ghost predicate DispatchedVia(c: Config, failOpen: bool, s: Server, r: Request, n: Server, v: Verdict,
                                s1: Server, v1: Verdict, answered: bool, l2: Limiter, v2: Verdict)
  {
    && RedisStep(c, s, r, s1, v1, answered)
    && (if answered then l2 == s1.l && v2 == v1
        else Check(c, s1.l, AddressKey(failOpen, r), r.now, l2, v2))
    && n.useRedis == s1.useRedis && n.zsets == s1.zsets
    && (if v2.Admitted? && r.users != [] then Check(c, l2, User(r.users[0]), r.now, n.l, v)
        else n.l == l2 && v == v2)
  }
}
