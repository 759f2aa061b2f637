/** The limiter object: two dictionaries of timestamp lists, updated per request, and the
    Redis sorted sets it prefers while Redis answers. */
module RateLimiter {
  import opened Numbers
  import opened LimiterModel

  class SlidingWindowRateLimiter {
    const config: Config
    const failOpen: bool
    var requests: map<Ident, Log>
    var userRequests: map<Ident, Log>
    var lastCleanup: real
    var useRedis: bool
    var zsets: map<Ident, Zset>

    ghost function View(): Limiter
      reads this
    {
      Limiter(requests, userRequests, lastCleanup)
    }

    /** found: what the sorted sets hold already, written by earlier or other processes. */
    constructor (config: Config, failOpen: bool, redis: bool, found: map<Ident, Zset>, now: real)
      ensures this.config == config && this.failOpen == failOpen
      ensures View() == Limiter(map[], map[], now) && useRedis == redis && zsets == found
    {
      this.config, this.failOpen := config, failOpen;
      requests, userRequests, lastCleanup, useRedis, zsets := map[], map[], now, redis, found;
    }

    method CleanupStaleRecords(now: real, force: bool)
      modifies this`requests, this`userRequests, this`lastCleanup
      ensures Cleaned(config, force, old(View()), now, View())
    {
      if !force && now - lastCleanup < 60.0 && |requests| < config.maxTracked {
        return;
      }
      DropExpired(now);
      if |requests| >= config.maxTracked {
        EvictOldest(|requests| - config.maxTracked / 2);
      }
    }

    method DropExpired(now: real)
      modifies this`requests, this`userRequests, this`lastCleanup
      ensures lastCleanup == now
      ensures requests == Unexpired(old(requests), now - config.window)
      ensures userRequests == Unexpired(old(userRequests), now - config.window)
      ensures forall id :: id in requests <==>
                id in old(requests) && old(requests)[id] != [] &&
                old(requests)[id][|old(requests)[id]| - 1] > now - config.window
      ensures forall id :: id in userRequests <==>
                id in old(userRequests) && old(userRequests)[id] != [] &&
                old(userRequests)[id][|old(userRequests)[id]| - 1] > now - config.window
    {
      lastCleanup := now;
      var windowStart := now - config.window;
      requests := map id | id in requests && requests[id] != [] && windowStart < Last(requests[id]) :: requests[id];
      userRequests := map id | id in userRequests && userRequests[id] != [] && windowStart < Last(userRequests[id])
                        :: userRequests[id];
    }

    /** Pops the `toRemove` records that come first when sorted by their last timestamp. */
    method EvictOldest(toRemove: int)
      requires toRemove >= 0
      modifies this`requests
      ensures Trimmed(old(requests), |old(requests)| - toRemove, requests)
    {
      var removed := 0;
      while removed < toRemove && requests != map[]
        invariant 0 <= removed <= toRemove
        invariant SubMap(requests, old(requests)) && |requests| == |old(requests)| - removed
        invariant forall i, j | i in old(requests) && i !in requests && j in requests ::
                    Last(old(requests)[i]) <= Last(requests[j])
      {
        var oldest := FindOldest();
        ghost var before := requests;
        requests := requests - {oldest};
        assert requests.Keys == before.Keys - {oldest};
        assert |requests| == |requests.Keys|;
        removed := removed + 1;
      }
    }

    method FindOldest() returns (id: Ident)
      requires requests != map[]
      ensures id in requests && forall j | j in requests :: Last(requests[id]) <= Last(requests[j])
    {
      id :| id in requests;
      var rest := requests.Keys - {id};
      while rest != {}
        invariant rest <= requests.Keys && id in requests
        invariant forall j | j in requests && j !in rest :: Last(requests[id]) <= Last(requests[j])
        decreases |rest|
      {
        var j :| j in rest;
        if Last(requests[j]) < Last(requests[id]) {
          id := j;
        }
        rest := rest - {j};
      }
    }

    method IsRateLimitedInMemory(id: Ident, now: real) returns (verdict: Verdict)
      modifies this`requests, this`userRequests, this`lastCleanup
      ensures Check(config, old(View()), id, now, View(), verdict)
    {
      hide Cleaned, Trunc, Max, SubMap, Last;
      CleanupStaleRecords(now, false);
      ghost var cleaned := View();
      var limit := LimitOf(config, id);
      var stored := LogOf(Limiter(requests, userRequests, lastCleanup), id);
      var timestamps := Prune(stored, now - config.window);
      if |timestamps| >= limit {
        if timestamps == [] {
          return Crash;
        }
        return Rejected(Max(1, Trunc(config.window - (now - timestamps[0]))));
      }
      timestamps := timestamps + [now];
      if id.User? {
        userRequests := userRequests[id := timestamps];
      } else {
        requests := requests[id := timestamps];
      }
      return Admitted;
    }

    /** The list comprehension over the stored timestamps. */
    static method Prune(log: Log, after: real) returns (kept: Log)
      ensures kept == Recent(log, after)
    {
      kept := [];
      var i := 0;
      while i < |log|
        invariant 0 <= i <= |log| && kept + Recent(log[i..], after) == Recent(log, after)
      {
        assert log[i..][0] == log[i] && log[i..][1..] == log[i + 1..];
        if log[i] > after {
          kept := kept + [log[i]];
        }
        i := i + 1;
      }
    }

    ghost function Whole(): Server
      reads this
    {
      Server(View(), useRedis, zsets)
    }

    method IsRateLimitedRedis(r: Request) returns (answered: bool, verdict: Verdict)
      modifies this`useRedis, this`zsets
      ensures RedisStep(config, old(Whole()), r, Whole(), verdict, answered)
      ensures answered == (old(useRedis) && r.redisOk) && useRedis == answered
      ensures !old(useRedis) || !(r.redisOk || r.applied) ==> zsets == old(zsets)
      ensures old(useRedis) && (r.redisOk || r.applied) ==> At(r.now) in ZsetOf(zsets, Ip(r.ip))
    {
      verdict := Admitted;
      if !useRedis {
        return false, verdict;
      }
      var keys := Keys(r);
      var before := zsets;
      if r.redisOk || r.applied {
        ExecutePipeline(keys, r.now);
        assert keys[0] == Ip(r.ip);
      }
      if !r.redisOk {
        useRedis := false;
        return false, verdict;
      }
      verdict := InspectCounts(before, keys, r.now);
      answered := true;
    }

    method ExecutePipeline(keys: seq<Ident>, now: real)
      modifies this`zsets
      ensures zsets == PipelineAll(config, old(zsets), keys, now)
      ensures forall i | 0 <= i < |keys| :: At(now) in ZsetOf(zsets, keys[i])
      ensures forall k | k !in keys :: ZsetOf(zsets, k) == ZsetOf(old(zsets), k)
    {
      var i := 0;
      while i < |keys|
        invariant 0 <= i <= |keys|
        invariant PipelineAll(config, zsets, keys[i..], now) == PipelineAll(config, old(zsets), keys, now)
        invariant forall j | 0 <= j < i :: At(now) in ZsetOf(zsets, keys[j])
        invariant forall k | k !in keys :: ZsetOf(zsets, k) == ZsetOf(old(zsets), k)
      {
        assert keys[i..][1..] == keys[i + 1..];
        zsets := zsets[keys[i] := Pipeline(config, ZsetOf(zsets, keys[i]), now).0];
        i := i + 1;
      }
    }

    method InspectCounts(before: map<Ident, Zset>, keys: seq<Ident>, now: real) returns (verdict: Verdict)
      ensures RedisVerdict(config, before, keys, now, verdict)
    {
      hide Trunc, Max, Drop;
      var i := 0;
      while i < |keys|
        invariant 0 <= i <= |keys|
        invariant forall v :: RedisVerdict(config, before, keys[i..], now, v) ==>
                                RedisVerdict(config, before, keys, now, v)
      {
        assert keys[i..][0] == keys[i] && keys[i..][1..] == keys[i + 1..];
        var (z, count) := Pipeline(config, ZsetOf(before, keys[i]), now);
        if count >= config.maxRequests {
          var oldest := FindFirst(z, now);
          verdict := Rejected(Max(1, Trunc(config.window - (now - oldest))));
          assert RedisVerdict(config, before, keys[i..], now, verdict);
          return;
        }
        i := i + 1;
      }
      verdict := Admitted;
      assert RedisVerdict(config, before, keys[i..], now, verdict);
    }

    /** zrange 0 0. */
    static method FindFirst(z: Zset, some: real) returns (oldest: real)
      requires At(some) in z
      ensures IsOldest(z, oldest)
    {
      oldest := some;
      var rest := z;
      while rest != {}
        invariant rest <= z && At(oldest) in z && forall m | m in z && m !in rest :: oldest <= m.t
        decreases |rest|
      {
        var m :| m in rest;
        if m.t < oldest {
          oldest := m.t;
        }
        rest := rest - {m};
      }
    }

    /** The decision part of `dispatch` for a protected path. */
    method Dispatch(r: Request) returns (verdict: Verdict)
      modifies this
      ensures Dispatched(config, failOpen, old(Whole()), r, Whole(), verdict)
    {
      var answered: bool;
      answered, verdict := IsRateLimitedRedis(r);
      ghost var s1, v1 := Whole(), verdict;
      if !answered {
        var id := if r.llm && !failOpen then Emergency(r.ip) else Ip(r.ip);
        verdict := IsRateLimitedInMemory(id, r.now);
      }
      ghost var l2, v2 := View(), verdict;
      if verdict == Admitted && r.users != [] {
        verdict := IsRateLimitedInMemory(User(r.users[0]), r.now);
      }
      assert DispatchedVia(config, failOpen, old(Whole()), r, Whole(), verdict, s1, v1, answered, l2, v2);
    }
  }
}
