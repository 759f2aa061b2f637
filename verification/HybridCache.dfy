/** The hybrid cache object over a bounded memory cache and a Redis server.  The server is the
    map it holds; each command's fate (answered, failed, failed after being applied) is given. */
module HybridCache {
  import opened SingleFlight
  import opened BoundedCache
  import opened HybridTiers
  import HybridMemory

  class RedisHybridCache {
    const inMemory: BoundedAsyncTtlCache
    const maxBytes: nat
    const mcpTtl: real
    var redis: map<Key, Value>
    var useRedis: bool

    ghost predicate Ready()
      reads this, inMemory
    {
      inMemory.maxEntries >= 1 && !inMemory.locked
    }

    /** Between calls of a sequential run nothing is in flight. */
    ghost predicate Idle()
      reads this, inMemory
    {
      Ready() && inMemory.inflight == map[]
    }

    ghost function View(): Tiers
      reads this, inMemory
    {
      Tiers(BoundedAsyncTtlCache.Values(inMemory.store), redis, useRedis)
    }

    /** connected: REDIS_URL is set, the library is there and the client was built.  found: what
        the server holds already. */
    constructor (inMemory: BoundedAsyncTtlCache, maxBytes: nat, mcpTtl: real, connected: bool, found: map<Key, Value>)
      requires inMemory.maxEntries >= 1 && !inMemory.locked && inMemory.inflight == map[]
      ensures this.inMemory == inMemory && this.maxBytes == maxBytes && this.mcpTtl == mcpTtl && Idle()
      ensures redis == found && useRedis == connected
    {
      this.inMemory, this.maxBytes, this.mcpTtl := inMemory, maxBytes, mcpTtl;
      redis, useRedis := found, connected;
    }

    /** Redis is asked and has the key. */
    ghost predicate Answers(key: Key, up: bool)
      reads this
    {
      useRedis && up && key in redis
    }

    /** Seconds the memory tier keeps an entry: its own default if none are given ... */
    ghost function Kept(ttl: Ttl): real {
      if ttl.Unset? then inMemory.defaultTtl else ttl.seconds
    }

    /** ... and where set_mcp decides, the default of the MCP cache for none or zero. */
    ghost function KeptMcp(ttl: Ttl): real {
      if ttl.Unset? || ttl.seconds == 0.0 then mcpTtl else ttl.seconds
    }

    /** get and get_mcp differ only in how they spell the key. */
    method Get(key: Key, up: bool, now: real) returns (answer: Outcome)
      requires Ready()
      modifies this, inMemory
      ensures Ready() && inMemory.inflight == old(inMemory.inflight)
      ensures HybridTiers.Read(old(View()), key, up, View(), answer)
      ensures redis == old(redis) && useRedis == (old(useRedis) && up)
      ensures old(Answers(key, up)) ==> answer == Some(redis[key]) && inMemory.store == old(inMemory.store)
      ensures !old(Answers(key, up)) ==>
                HybridMemory.Step(inMemory.maxEntries, maxBytes, old(inMemory.store), HybridMemory.Get(key, now),
                                  inMemory.store, answer)
    {
      if useRedis {
        if up {
          if key in redis {
            return Some(redis[key]);
          }
        } else {
          useRedis := false;
        }
      }
      answer := inMemory.Get(key, now);
    }

    method WriteRedis(key: Key, value: Value, write: Write) returns (failed: bool)
      modifies this`redis
      ensures redis == if write.Stored? || write.applied then old(redis)[key := value] else old(redis)
      ensures failed <==> write.Failed?
    {
      if write.Stored? || write.applied {
        redis := redis[key := value];
      }
      failed := write.Failed?;
    }

    method Set(key: Key, value: Value, ttl: Ttl, write: Write, now: real)
      requires Ready()
      modifies this, inMemory
      ensures Ready() && inMemory.inflight == old(inMemory.inflight)
      ensures Mirror(old(View()), key, value, write, View())
      ensures useRedis == (old(useRedis) && write.Stored?)
      ensures redis == if old(useRedis) && (write.Stored? || write.applied) then old(redis)[key := value]
                       else old(redis)
      ensures HybridMemory.Step(inMemory.maxEntries, maxBytes, old(inMemory.store),
                                HybridMemory.Set(key, value, Kept(ttl), now), inMemory.store, NoValue)
    {
      var _ := inMemory.Set(key, value, ttl, now);
      assert MemWrite(old(View()).mem, key, value, inMemory.View().store);
      if useRedis {
        var failed := WriteRedis(key, value, write);
        if failed {
          useRedis := false;
        }
      }
    }

    method SetMcp(key: Key, value: Value, ttl: Ttl, write: Write, now: real) returns (cached: bool)
      requires Ready()
      modifies this, inMemory
      ensures Ready() && inMemory.inflight == old(inMemory.inflight)
      ensures HybridTiers.Step(maxBytes, old(View()), Op.SetMcp(key, value, write), View(), NoValue)
      ensures cached <==> |value| <= maxBytes
      ensures cached ==> key in inMemory.store && inMemory.store[key].value == value
      ensures cached ==> inMemory.store[key].expires == now + match ttl
                           case Unset => mcpTtl
                           case Seconds(s) => if s == 0.0 then mcpTtl else s
      ensures !cached ==> inMemory.store == old(inMemory.store) && redis == old(redis) && useRedis == old(useRedis)
      ensures HybridMemory.Step(inMemory.maxEntries, maxBytes, old(inMemory.store),
                                HybridMemory.SetMcp(key, value, KeptMcp(ttl), now), inMemory.store, NoValue)
    {
      if |value| > maxBytes {
        return false;
      }
      var seconds := if ttl.Unset? || ttl.seconds == 0.0 then mcpTtl else ttl.seconds;
      Set(key, value, Seconds(seconds), write, now);
      return true;
    }

    /** The head of an uncontended get_or_set: both tiers, memory again, then registration. */
    method LookUpOrLead(caller: nat, key: Key, up: bool, now: real) returns (answer: Outcome)
      requires Idle()
      modifies this, inMemory
      ensures Ready() && HybridTiers.Read(old(View()), key, up, View(), answer)
      ensures answer.Some? || answer == NoValue
      ensures inMemory.inflight == if answer.Some? then map[] else map[key := caller]
      ensures old(Answers(key, up)) ==> answer == Some(redis[key]) && inMemory.store == old(inMemory.store)
      ensures !old(Answers(key, up)) ==>
                HybridMemory.Reads(inMemory.maxEntries, old(inMemory.store), key, now, inMemory.store, answer)
    {
      answer := Get(key, up, now);
      if !answer.Some? {
        ghost var missed := inMemory.store;
        assert key !in View().mem;
        var again := inMemory.Get(key, now);
        assert inMemory.store == missed;
        var _ := inMemory.Register(false, caller, key);
      }
    }

    /** Its tail: resolve the future, store a value, drop the in-flight entry. */
    method Land(caller: nat, key: Key, fetched: Outcome, ttl: Ttl, landed: real)
      requires Ready() && inMemory.inflight == map[key := caller]
      modifies inMemory
      ensures Idle()
      ensures if fetched.Some? then MemWrite(old(View()).mem, key, fetched.value, View().mem)
              else View().mem == old(View()).mem
      ensures if fetched.Some? then
                HybridMemory.Puts(inMemory.maxEntries, old(inMemory.store), key, fetched.value, Kept(ttl), landed,
                                  inMemory.store)
              else inMemory.store == old(inMemory.store)
      ensures caller in inMemory.futures && inMemory.futures[caller] == Resolved(fetched)
    {
      inMemory.CoroutineEnded(caller, fetched);
      if fetched.Some? {
        var _ := inMemory.Publish(caller, key, fetched.value, ttl, landed);
      }
      inMemory.Retire(key);
    }

    /** landed: the time read when the fetched value is stored. */
    method GetOrSet(caller: nat, key: Key, up: bool, fetched: Outcome, ttl: Ttl, write: Write, now: real, landed: real)
      returns (answer: Outcome)
      requires Idle()
      modifies this, inMemory
      ensures Idle() && HybridTiers.Step(maxBytes, old(View()), Op.GetOrSet(key, up, fetched, write), View(), answer)
      ensures useRedis == (old(useRedis) && up)
      ensures old(Answers(key, up)) ==> answer == Some(old(redis)[key]) && inMemory.store == old(inMemory.store)
      ensures !old(Answers(key, up)) ==>
                HybridMemory.Step(inMemory.maxEntries, maxBytes, old(inMemory.store),
                                  HybridMemory.GetOrSet(key, fetched, Kept(ttl), now, landed), inMemory.store, answer)
    {
      answer := LookUpOrLead(caller, key, up, now);
      ghost var r, a, m := View(), answer, inMemory.store;
      if !answer.Some? {
        if fetched.Some? && useRedis {
          var _ := WriteRedis(key, fetched.value, write);
        }
        Land(caller, key, fetched, ttl, landed);
        answer := fetched;
      }
      assert ReadThrough(maxBytes, false, old(View()), key, up, fetched, write, View(), answer, r, a);
      assert !old(Answers(key, up)) ==>
               HybridMemory.ReadsThrough(inMemory.maxEntries, maxBytes, old(inMemory.store),
                 HybridMemory.GetOrSet(key, fetched, Kept(ttl), now, landed), inMemory.store, answer, m, a);
    }

    method GetOrSetMcp(caller: nat, key: Key, up: bool, fetched: Outcome, ttl: Ttl, write: Write,
                       now: real, landed: real)
      returns (answer: Outcome)
      requires Idle()
      modifies this, inMemory
      ensures Idle() && HybridTiers.Step(maxBytes, old(View()), Op.GetOrSetMcp(key, up, fetched, write), View(), answer)
      ensures useRedis == (old(useRedis) && up &&
                (old(Answers(key, up)) || old(key in inMemory.store && now < inMemory.store[key].expires) ||
                 !fetched.Some? || |fetched.value| > maxBytes || write.Stored?))
      ensures old(Answers(key, up)) ==> answer == Some(old(redis)[key]) && inMemory.store == old(inMemory.store)
      ensures !old(Answers(key, up)) ==>
                HybridMemory.Step(inMemory.maxEntries, maxBytes, old(inMemory.store),
                                  HybridMemory.GetOrSetMcp(key, fetched, KeptMcp(ttl), Kept(ttl), now, landed),
                                  inMemory.store, answer)
    {
      answer := LookUpOrLead(caller, key, up, now);
      ghost var r, a, m := View(), answer, inMemory.store;
      if !answer.Some? {
        if fetched.Some? {
          var _ := SetMcp(key, fetched.value, ttl, write, landed);
        }
        ghost var mirrored, p := View().mem, inMemory.store;
        Land(caller, key, fetched, ttl, landed);
        answer := fetched;
        if fetched.Some? && |fetched.value| <= maxBytes {
          assert Mirror(r, key, fetched.value, write, View().(mem := mirrored));
          assert HybridMemory.Puts(inMemory.maxEntries, m, key, fetched.value, KeptMcp(ttl), landed, p);
        }
      }
      assert ReadThrough(maxBytes, true, old(View()), key, up, fetched, write, View(), answer, r, a);
      assert !old(Answers(key, up)) ==>
               HybridMemory.ReadsThrough(inMemory.maxEntries, maxBytes, old(inMemory.store),
                 HybridMemory.GetOrSetMcp(key, fetched, KeptMcp(ttl), Kept(ttl), now, landed),
                 inMemory.store, answer, m, a);
    }

    method Clear(flushed: bool)
      requires Idle()
      modifies this, inMemory
      ensures Idle() && HybridTiers.Step(maxBytes, old(View()), Op.Clear(flushed), View(), NoValue)
      ensures inMemory.store == map[] && useRedis == old(useRedis)
      ensures redis == if old(useRedis) && flushed then map[] else old(redis)
    {
      inMemory.Clear();
      if useRedis && flushed {
        redis := map[];
      }
    }
  }
}
