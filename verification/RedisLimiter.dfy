/** The Redis form of the limiter, which also logs rejected attempts, against the in-memory form. */
module RedisLimiter {
  import opened Numbers
  import opened LimiterModel
  import opened LimiterTheorems

  ghost predicate Increasing(h: Log) {
    forall i, j | 0 <= i < j < |h| :: h[i] < h[j]
  }

  /** The sorted set of one key after the attempts. */
  function ZsetAfter(c: Config, attempts: Log): Zset {
    if attempts == [] then {}
    else
      var n := |attempts| - 1;
      Pipeline(c, ZsetAfter(c, attempts[..n]), attempts[n]).0
  }

  /** The admissions of a limiter that keeps its complete history. */
  function MemoryHistory(c: Config, limit: int, attempts: Log): Log {
    if attempts == [] then []
    else
      var n := |attempts| - 1;
      Judged(c, limit, MemoryHistory(c, limit, attempts[..n]), attempts[n])
  }

  function Judged(c: Config, limit: int, h: Log, t: real): Log {
    if Count(h, t - c.window) < limit then h + [t] else h
  }

  /** Distinct late entries that all lie in s are no more than s. */
  lemma {:induction false} CountDistinct(h: Log, after: real, s: Zset)
    requires Increasing(h) && forall i | 0 <= i < |h| && h[i] > after :: At(h[i]) in s
    ensures Count(h, after) <= |s|
  {
    if h == [] {
    } else {
      if h[0] > after {
        CountDistinct(h[1..], after, s - {At(h[0])});
      } else {
        CountDistinct(h[1..], after, s);
      }
    }
  }

  /** Late admissions of the memory form are members of the sorted set. */
  lemma {:induction false} AdmissionsAreAttempts(c: Config, limit: int, attempts: Log, after: real)
    requires Increasing(attempts) && (attempts != [] ==> after >= attempts[|attempts| - 1] - c.window)
    ensures var h := MemoryHistory(c, limit, attempts);
            && Increasing(h)
            && (forall i | 0 <= i < |h| :: attempts != [] && h[i] <= attempts[|attempts| - 1])
            && (forall i | 0 <= i < |h| && h[i] > after :: At(h[i]) in ZsetAfter(c, attempts))
  {
    if attempts == [] {
    } else {
      var n := |attempts| - 1;
      if n > 0 {
        assert attempts[n - 1] < attempts[n];
        assert attempts[..n][n - 1] == attempts[n - 1];
      }
      AdmissionsAreAttempts(c, limit, attempts[..n], attempts[n] - c.window);
    }
  }

  /** Whenever the Redis form admits an attempt, the memory form, given the same attempts at
      distinct times, admits it too. */
  lemma RedisIsStricter(c: Config, limit: int, attempts: Log, i: nat)
    requires Increasing(attempts) && i < |attempts|
    requires Pipeline(c, ZsetAfter(c, attempts[..i]), attempts[i]).1 < limit
    ensures Count(MemoryHistory(c, limit, attempts[..i]), attempts[i] - c.window) < limit
  {
    var before, after := attempts[..i], attempts[i] - c.window;
    if i > 0 {
      assert before[|before| - 1] == attempts[i - 1] < attempts[i];
    }
    AdmissionsAreAttempts(c, limit, before, after);
    CountDistinct(MemoryHistory(c, limit, before), after, Drop(ZsetAfter(c, before), after));
  }

  // ---------- equal timestamps ----------

  ghost predicate LateEqual(h: Log, after: real) {
    exists i, j :: 0 <= i < j < |h| && h[i] == h[j] > after
  }

  /** The late entries of a log as members of a set. */
  ghost function LateSet(h: Log, after: real): Zset {
    set i | 0 <= i < |h| && h[i] > after :: At(h[i])
  }

  lemma LateSetGrows(h: Log, t: real, after: real)
    ensures LateSet(h + [t], after) == if t > after then LateSet(h, after) + {At(t)} else LateSet(h, after)
  {
    var g := h + [t];
    forall m | m in LateSet(h, after) ensures m in LateSet(g, after) {
      var i :| 0 <= i < |h| && h[i] > after && m == At(h[i]);
      assert g[i] == h[i];
    }
    assert g[|h|] == t;
  }

  lemma ZsetGrows(c: Config, g: Log, t: real)
    ensures ZsetAfter(c, []) == {}
    ensures ZsetAfter(c, g + [t]) == Drop(ZsetAfter(c, g), t - c.window) + {At(t)}
  {
    assert (g + [t])[..|g|] == g;
  }

  lemma DropOne(z: Zset, t: real, after: real)
    ensures Drop(z + {At(t)}, after) == Drop(z, after) + if t > after then {At(t)} else {}
  {
  }

  /** The sorted set holds just the attempts that may still count. */
  lemma {:induction false} HoldsLate(c: Config, h: Log, after: real)
    requires Sorted(h) && (h != [] ==> after >= h[|h| - 1] - c.window)
    ensures Drop(ZsetAfter(c, h), after) == LateSet(h, after)
  {
    hide ZsetAfter, LateSet;
    if h == [] {
      ZsetGrows(c, [], 0.0);
      Empty(after);
    } else {
      var n := |h| - 1;
      var g, t := h[..n], h[n];
      assert h == g + [t];
      assert n > 0 ==> g[n - 1] == h[n - 1] <= t;
      HoldsLate(c, g, t - c.window);
      ZsetGrows(c, g, t);
      DropOne(LateSet(g, t - c.window), t, after);
      Later(g, t - c.window, after);
      LateSetGrows(g, t, after);
    }
  }

  lemma Empty(after: real)
    ensures LateSet([], after) == Drop({}, after) == {}
  {
  }

  lemma Later(h: Log, before: real, after: real)
    requires before <= after
    ensures Drop(LateSet(h, before), after) == LateSet(h, after)
  {
    forall m | m in LateSet(h, after) ensures m in LateSet(h, before) {
      var i :| 0 <= i < |h| && h[i] > after && m == At(h[i]);
    }
  }

  lemma LateEqualGrows(h: Log, t: real, after: real)
    ensures LateEqual(h + [t], after) <==> LateEqual(h, after) || (t > after && At(t) in LateSet(h, after))
  {
    var g := h + [t];
    if LateEqual(h, after) {
      var i, j :| 0 <= i < j < |h| && h[i] == h[j] > after;
      assert g[i] == g[j] > after;
    } else if t > after && At(t) in LateSet(h, after) {
      var i :| 0 <= i < |h| && h[i] > after && At(t) == At(h[i]);
      assert g[i] == g[|h|] > after;
    }
    if LateEqual(g, after) {
      var i, j :| 0 <= i < j < |g| && g[i] == g[j] > after;
      if j < |h| {
        assert h[i] == h[j] > after;
      }
    }
  }

  lemma {:induction false} LateSetCounts(h: Log, after: real)
    ensures |LateSet(h, after)| <= Count(h, after)
    ensures |LateSet(h, after)| == Count(h, after) <==> !LateEqual(h, after)
  {
    if h == [] {
    } else {
      var n := |h| - 1;
      var g, t := h[..n], h[n];
      assert h == g + [t];
      LateSetCounts(g, after);
      LateSetGrows(g, t, after);
      LateEqualGrows(g, t, after);
      CountConcat(g, [t], after);
      assert [t][1..] == [];
      OneMore(LateSet(g, after), At(t));
    }
  }

  lemma OneMore(z: Zset, m: Member)
    ensures |z + {m}| == |z| + if m in z then 0 else 1
  {
    if m in z {
      assert z + {m} == z;
    }
  }

  /** Redis never counts more attempts than were made in the window, and counts them all exactly
      if no two of them carry the same timestamp. */
  lemma CountsEachIff(c: Config, h: Log, now: real)
    requires Sorted(h) && (forall i | 0 <= i < |h| :: h[i] <= now)
    ensures var count := Pipeline(c, ZsetAfter(c, h), now).1;
            && count <= Count(h, now - c.window)
            && (count == Count(h, now - c.window) <==> !LateEqual(h, now - c.window))
  {
    HoldsLate(c, h, now - c.window);
    LateSetCounts(h, now - c.window);
  }

  function Repeat(t: real, n: nat): Log {
    if n == 0 then [] else Repeat(t, n - 1) + [t]
  }

  lemma {:induction false} RepeatLast(t: real, n: nat)
    ensures |Repeat(t, n)| == n
    ensures n > 0 ==> Repeat(t, n)[..n - 1] == Repeat(t, n - 1) && Repeat(t, n)[n - 1] == t
  {
    if n == 0 {
    } else {
      RepeatLast(t, n - 1);
    }
  }

  lemma {:induction false} CountRepeat(t: real, n: nat, after: real)
    requires t > after
    ensures Count(Repeat(t, n), after) == n
  {
    if n == 0 {
    } else {
      CountRepeat(t, n - 1, after);
      CountConcat(Repeat(t, n - 1), [t], after);
      assert Count([t][1..], after) == 0;
    }
  }

  lemma {:induction false} RedisKeepsOne(c: Config, t: real, n: nat)
    requires c.window > 0.0
    ensures ZsetAfter(c, Repeat(t, n)) == if n == 0 then {} else {At(t)}
  {
    if n == 0 {
    } else {
      RedisKeepsOne(c, t, n - 1);
      RepeatLast(t, n);
      assert Drop(ZsetAfter(c, Repeat(t, n - 1)), t - c.window) <= {At(t)};
    }
  }

  lemma MemoryGrows(c: Config, limit: int, before: Log, t: real)
    ensures MemoryHistory(c, limit, []) == []
    ensures MemoryHistory(c, limit, before + [t]) == Judged(c, limit, MemoryHistory(c, limit, before), t)
  {
    hide Judged;
    assert (before + [t])[..|before|] == before;
  }

  function Least(n: nat, limit: int): nat {
    if n <= limit then n else Max(0, limit)
  }

  lemma {:induction false} MemoryKeepsLimit(c: Config, limit: int, t: real, n: nat)
    requires c.window > 0.0
    ensures MemoryHistory(c, limit, Repeat(t, n)) == Repeat(t, Least(n, limit))
  {
    hide MemoryHistory, Count;
    MemoryGrows(c, limit, if n == 0 then [] else Repeat(t, n - 1), t);
    if n == 0 {
    } else {
      MemoryKeepsLimit(c, limit, t, n - 1);
      CountRepeat(t, Least(n - 1, limit), t - c.window);
    }
  }

  /** At one instant it is the other way round.  Equal timestamps are one member of the set, so
      Redis never counts more than one however many it is given, while the memory form admits
      as many as its limit and no more. */
  lemma SameInstantIsFree(c: Config, limit: int, t: real, n: nat)
    requires c.window > 0.0
    ensures Pipeline(c, ZsetAfter(c, Repeat(t, n)), t).1 == if n == 0 then 0 else 1
    ensures |MemoryHistory(c, limit, Repeat(t, n))| == Least(n, limit)
  {
    RedisKeepsOne(c, t, n);
    assert Drop({At(t)}, t - c.window) == {At(t)};
    assert Drop({}, t - c.window) == {};
    MemoryKeepsLimit(c, limit, t, n);
    RepeatLast(t, Least(n, limit));
  }

  // ---------- several keys ----------

  /** Only its own pipeline touches a key. */
  lemma {:induction false} OtherKeys(c: Config, zsets: map<Ident, Zset>, keys: seq<Ident>, now: real, key: Ident)
    requires key !in keys
    ensures ZsetOf(PipelineAll(c, zsets, keys, now), key) == ZsetOf(zsets, key)
    decreases |keys|
  {
    if keys == [] {
    } else {
      OtherKeys(c, zsets[keys[0] := Pipeline(c, ZsetOf(zsets, keys[0]), now).0], keys[1..], now, key);
    }
  }

  lemma FirstKey(c: Config, zsets: map<Ident, Zset>, keys: seq<Ident>, now: real)
    requires keys != [] && keys[0] !in keys[1..]
    ensures ZsetOf(PipelineAll(c, zsets, keys, now), keys[0]) == Pipeline(c, ZsetOf(zsets, keys[0]), now).0
  {
    OtherKeys(c, zsets[keys[0] := Pipeline(c, ZsetOf(zsets, keys[0]), now).0], keys[1..], now, keys[0]);
  }

  ghost predicate DistinctKeys(keys: seq<Ident>) {
    forall i, j | 0 <= i < j < |keys| :: keys[i] != keys[j]
  }

  lemma {:induction false} EachKeyLogged(c: Config, zsets: map<Ident, Zset>, keys: seq<Ident>, now: real, i: nat)
    requires DistinctKeys(keys) && i < |keys|
    ensures ZsetOf(PipelineAll(c, zsets, keys, now), keys[i]) == Pipeline(c, ZsetOf(zsets, keys[i]), now).0
    decreases |keys|
  {
    hide Pipeline;
    if i == 0 {
      FirstKey(c, zsets, keys, now);
    } else {
      var one := zsets[keys[0] := Pipeline(c, ZsetOf(zsets, keys[0]), now).0];
      EachKeyLogged(c, one, keys[1..], now, i - 1);
      assert keys[1..][i - 1] == keys[i] != keys[0];
    }
  }

  /** A request passes exactly if every key has room. */
  lemma {:induction false} PassesIff(c: Config, zsets: map<Ident, Zset>, keys: seq<Ident>, now: real)
    ensures RedisVerdict(c, zsets, keys, now, Admitted) <==>
              forall i | 0 <= i < |keys| :: Pipeline(c, ZsetOf(zsets, keys[i]), now).1 < c.maxRequests
    decreases |keys|
  {
    hide Pipeline;
    if keys == [] {
    } else {
      var rest := keys[1..];
      PassesIff(c, zsets, rest, now);
      assert forall i | 1 <= i < |keys| :: keys[i] == rest[i - 1];
      assert forall i | 0 <= i < |rest| :: rest[i] == keys[i + 1];
    }
  }

  /** And no other verdict is then possible. */
  lemma {:induction false} AdmittedIff(c: Config, zsets: map<Ident, Zset>, keys: seq<Ident>, now: real, v: Verdict)
    requires RedisVerdict(c, zsets, keys, now, v)
    ensures v == Admitted <==>
              forall i | 0 <= i < |keys| :: Pipeline(c, ZsetOf(zsets, keys[i]), now).1 < c.maxRequests
    decreases |keys|
  {
    hide Pipeline;
    if keys == [] {
    } else if Pipeline(c, ZsetOf(zsets, keys[0]), now).1 < c.maxRequests {
      var rest := keys[1..];
      AdmittedIff(c, zsets, rest, now, v);
      assert forall i | 1 <= i < |keys| :: keys[i] == rest[i - 1];
      assert forall i | 0 <= i < |rest| :: rest[i] == keys[i + 1];
    }
  }

  /** A rejection comes from the first key that is full, and tells the wait of its oldest member. */
  lemma {:induction false} RejectedBy(c: Config, zsets: map<Ident, Zset>, keys: seq<Ident>, now: real, v: Verdict)
      returns (i: nat, oldest: real)
    requires RedisVerdict(c, zsets, keys, now, v) && v.Rejected?
    ensures i < |keys| && Pipeline(c, ZsetOf(zsets, keys[i]), now).1 >= c.maxRequests
    ensures forall j | 0 <= j < i :: Pipeline(c, ZsetOf(zsets, keys[j]), now).1 < c.maxRequests
    ensures IsOldest(Pipeline(c, ZsetOf(zsets, keys[i]), now).0, oldest)
    ensures v.retryAfter == Max(1, Trunc(c.window - (now - oldest)))
    decreases |keys|
  {
    hide Trunc, Max, Pipeline;
    var (z, count) := Pipeline(c, ZsetOf(zsets, keys[0]), now);
    if count >= c.maxRequests {
      i := 0;
      oldest :| IsOldest(z, oldest) && v == Rejected(Max(1, Trunc(c.window - (now - oldest))));
    } else {
      var k: nat;
      k, oldest := RejectedBy(c, zsets, keys[1..], now, v);
      i := k + 1;
      assert forall j | 1 <= j < i :: keys[j] == keys[1..][j - 1];
    }
  }

  // ---------- Retry-After ----------

  function Below(z: Zset, t: real): Zset {
    set m | m in z && m.t < t
  }

  /** t is a member with exactly k before it. */
  ghost predicate IsNth(z: Zset, k: nat, t: real) {
    At(t) in z && |Below(z, t)| == k
  }

  lemma {:induction false} Nth(z: Zset, k: nat) returns (t: real)
    requires k < |z|
    ensures IsNth(z, k, t)
    decreases |z|
  {
    var first := First(z);
    if k == 0 {
      t := first;
      assert Below(z, t) == {};
    } else {
      t := Nth(z - {At(first)}, k - 1);
      assert Below(z, t) == Below(z - {At(first)}, t) + {At(first)};
    }
  }

  lemma {:induction false} First(z: Zset) returns (t: real)
    requires z != {}
    ensures IsOldest(z, t)
    decreases |z|
  {
    var m :| m in z;
    if z == {m} {
      t := m.t;
    } else {
      assert z == (z - {m}) + {m};
      var u := First(z - {m});
      t := if m.t <= u then m.t else u;
      assert At(m.t) == m;
    }
  }

  lemma Partition(z: Zset, k: nat, t: real)
    requires IsNth(z, k, t)
    ensures |z| == k + 1 + |Drop(z, t)|
  {
    forall m | m in z ensures m in Below(z, t) + {At(t)} + Drop(z, t) {
      assert m == At(m.t);
    }
    assert z == Below(z, t) + {At(t)} + Drop(z, t);
  }

  lemma Smaller(y: Zset, z: Zset)
    requires y <= z
    ensures |y| <= |z|
  {
    assert z == y + (z - y);
  }

  /** Of a set whose k-th member is t, at least |z| - k are late until t leaves, and fewer then. */
  lemma LateMembers(z: Zset, k: nat, t: real, after: real)
    requires IsNth(z, k, t)
    ensures |Drop(z, after)| < |z| - k <==> t <= after
  {
    Partition(z, k, t);
    if t <= after {
      Smaller(Drop(z, after), Drop(z, t));
    } else {
      Smaller(Drop(z, t) + {At(t)}, Drop(z, after));
    }
  }

  lemma OldestIsFirst(z: Zset, oldest: real, k: nat, t: real)
    requires IsOldest(z, oldest) && IsNth(z, k, t)
    ensures oldest <= t && (oldest == t <==> k == 0)
  {
    if k == 0 {
      assert At(oldest) !in Below(z, t);
    } else {
      var m :| m in Below(z, t);
      assert oldest <= m.t < t;
    }
  }

  lemma RejectedFacts(c: Config, zsets: map<Ident, Zset>, key: Ident, now: real, v: Verdict) returns (oldest: real)
    requires RedisVerdict(c, zsets, [key], now, v) && v.Rejected? && c.window > 0.0
    ensures var z := Pipeline(c, ZsetOf(zsets, key), now).0;
            && IsOldest(z, oldest) && v.retryAfter == Max(1, Trunc(c.window - (now - oldest)))
            && c.maxRequests <= |z| && (At(now) !in ZsetOf(zsets, key) ==> c.maxRequests < |z|)
  {
    hide Trunc, Max;
    assert [key][1..] == [];
    oldest := Told(c, zsets, [key], now, v);
    Logged(c, ZsetOf(zsets, key), now);
  }

  /** The wait told is computed from the oldest member of the first key, if that key rejects. */
  lemma Told(c: Config, zsets: map<Ident, Zset>, keys: seq<Ident>, now: real, v: Verdict) returns (oldest: real)
    requires RedisVerdict(c, zsets, keys, now, v) && v.Rejected? && |keys| == 1
    ensures var (z, count) := Pipeline(c, ZsetOf(zsets, keys[0]), now);
            && count >= c.maxRequests
            && IsOldest(z, oldest) && v.retryAfter == Max(1, Trunc(c.window - (now - oldest)))
  {
    hide Trunc, Max, Pipeline;
    var z := Pipeline(c, ZsetOf(zsets, keys[0]), now).0;
    oldest :| IsOldest(z, oldest) && v == Rejected(Max(1, Trunc(c.window - (now - oldest))));
  }

  /** A new timestamp adds one member to those counted. */
  lemma Logged(c: Config, z: Zset, now: real)
    ensures var (y, count) := Pipeline(c, z, now); count <= |y| && (At(now) !in z ==> |y| == count + 1)
  {
    var kept := Drop(z, now - c.window);
    Smaller(kept, kept + {At(now)});
    assert At(now) !in z ==> At(now) !in kept;
    assert At(now) !in kept ==> |kept + {At(now)}| == |kept| + 1;
  }

  /** The number told: whole seconds, never less than one, and else not more than the wait. */
  lemma ToldIsRounded(wait: real)
    ensures var told := Max(1, Trunc(wait));
            told >= 1 && (told as real <= wait || told == 1) && told as real + 1.0 > wait
  {
  }

  /** What a rejected client has to wait for.  If nothing else is attempted under the key, an
      attempt passes exactly from the time on when the timestamp leaves the window that has
      maxRequests - 1 later ones (the rejected attempt counts among them); the seconds it is told
      are enough exactly when it has left by then.  They are computed from the oldest timestamp
      instead: when that leaves, an attempt passes exactly if the set has no more than
      maxRequests members, which the attempt just logged rules out unless it
      shares its timestamp with an earlier one. */
  lemma RedisRetryAfterIff(c: Config, zsets: map<Ident, Zset>, key: Ident, now: real, v: Verdict) returns (t: real)
    requires RedisVerdict(c, zsets, [key], now, v) && v.Rejected? && c.maxRequests >= 1 && c.window > 0.0
    ensures var z := Pipeline(c, ZsetOf(zsets, key), now).0;
            && c.maxRequests <= |z| && IsNth(z, |z| - c.maxRequests, t)
            && (forall later :: Pipeline(c, z, later).1 < c.maxRequests <==> later >= t + c.window)
            && v.retryAfter >= 1
            && (Pipeline(c, z, now + v.retryAfter as real).1 < c.maxRequests <==>
                  t <= now + v.retryAfter as real - c.window)
            && exists oldest ::
                 && IsOldest(z, oldest) && v.retryAfter == Max(1, Trunc(c.window - (now - oldest)))
                 && oldest <= t
                 && (Pipeline(c, z, oldest + c.window).1 < c.maxRequests <==> |z| == c.maxRequests)
                 && (At(now) !in ZsetOf(zsets, key) ==> oldest < t)
  {
    hide RedisVerdict, Trunc;
    var z := Pipeline(c, ZsetOf(zsets, key), now).0;
    var oldest := RejectedFacts(c, zsets, key, now, v);
    t := Nth(z, |z| - c.maxRequests);
    OldestIsFirst(z, oldest, |z| - c.maxRequests, t);
    LateMembers(z, |z| - c.maxRequests, t, oldest);
    forall later ensures Pipeline(c, z, later).1 < c.maxRequests <==> later >= t + c.window {
      LateMembers(z, |z| - c.maxRequests, t, later - c.window);
    }
  }

  /** t has maxRequests - 1 later ones. */
  ghost predicate Decides(c: Config, z: Zset, t: real)
    requires |z| >= c.maxRequests
  {
    IsNth(z, |z| - c.maxRequests, t)
  }

  /** The set has room at that time, if nothing is added before. */
  ghost predicate FreeAt(c: Config, z: Zset, later: real) {
    |z| >= c.maxRequests ==> exists t :: Decides(c, z, t) && t + c.window <= later
  }

  lemma FreeIff(c: Config, z: Zset, later: real)
    requires c.maxRequests >= 1
    ensures Pipeline(c, z, later).1 < c.maxRequests <==> FreeAt(c, z, later)
  {
    Smaller(Drop(z, later - c.window), z);
    if |z| >= c.maxRequests {
      var t := Nth(z, |z| - c.maxRequests);
      LateMembers(z, |z| - c.maxRequests, t, later - c.window);
      assert Decides(c, z, t);
      forall u | Decides(c, z, u) ensures u + c.window <= later <==> t + c.window <= later {
        LateMembers(z, |z| - c.maxRequests, u, later - c.window);
      }
    }
  }

  /** The same for a request under several keys (the address and the user): the rejected request
      is logged under all of them; a later one passes exactly from the time on when all have
      room again; but the wait told is that of the oldest timestamp of the first full key. */
  lemma RetryAfterManyKeysIff(c: Config, zsets: map<Ident, Zset>, keys: seq<Ident>, now: real, v: Verdict)
      returns (i: nat, oldest: real)
    requires RedisVerdict(c, zsets, keys, now, v) && v.Rejected? && c.maxRequests >= 1 && DistinctKeys(keys)
    ensures var after := PipelineAll(c, zsets, keys, now);
            && i < |keys| && IsOldest(ZsetOf(after, keys[i]), oldest)
            && v.retryAfter == Max(1, Trunc(c.window - (now - oldest)))
            && c.maxRequests <= |ZsetOf(after, keys[i])|
            && (forall j | 0 <= j < i :: Pipeline(c, ZsetOf(zsets, keys[j]), now).1 < c.maxRequests)
            && (forall later :: RedisVerdict(c, after, keys, later, Admitted) <==>
                  forall j | 0 <= j < |keys| :: FreeAt(c, ZsetOf(after, keys[j]), later))
  {
    hide RedisVerdict, Trunc, Max, FreeAt;
    var after := PipelineAll(c, zsets, keys, now);
    i, oldest := RejectedBy(c, zsets, keys, now, v);
    EachKeyLogged(c, zsets, keys, now, i);
    Logged(c, ZsetOf(zsets, keys[i]), now);
    forall later ensures RedisVerdict(c, after, keys, later, Admitted) <==>
                           forall j | 0 <= j < |keys| :: FreeAt(c, ZsetOf(after, keys[j]), later)
    {
      PassesIff(c, after, keys, later);
      forall j | 0 <= j < |keys| {
        FreeIff(c, ZsetOf(after, keys[j]), later);
      }
    }
  }

  /** It happens: with one request per ten seconds, a client told at time 6 to wait 5 seconds is
      still rejected at 11.5. */
  lemma RedisRetryAfterMisleads(c: Config)
    requires c.window == 10.0 && c.maxRequests == 1
    ensures RedisVerdict(c, map[Ip("a") := {At(1.0)}], [Ip("a")], 6.0, Rejected(5))
    ensures var z := Pipeline(c, {At(1.0)}, 6.0).0; Pipeline(c, z, 11.5).1 >= c.maxRequests
  {
    var zsets: map<Ident, Zset> := map[Ip("a") := {At(1.0)}];
    assert ZsetOf(zsets, Ip("a")) == {At(1.0)};
    assert Drop({At(1.0)}, -4.0) == {At(1.0)};
    assert {At(1.0)} + {At(6.0)} == {At(1.0), At(6.0)};
    assert Pipeline(c, {At(1.0)}, 6.0) == ({At(1.0), At(6.0)}, 1);
    assert IsOldest({At(1.0), At(6.0)}, 1.0);
    assert Drop({At(1.0), At(6.0)}, 1.5) == {At(6.0)};
  }
}
