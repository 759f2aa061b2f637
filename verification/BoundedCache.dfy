/** The cache object.  Each method is one stretch of code between suspension points, run with
    the lock free on entry (the caller holds it for the stretch, and keeps it only where a
    follower suspends inside it). */
module BoundedCache {
  import opened SingleFlight
  import opened TtlStore

  /** The optional ttl_seconds of a call. */
  datatype Ttl = Unset | Seconds(seconds: real)

  const EMPTY_MIN := "min() arg is an empty sequence"

  class BoundedAsyncTtlCache {
    const defaultTtl: real
    const maxEntries: int
    var store: Store
    var inflight: map<Key, nat>
    var futures: map<nat, Future>
    var locked: bool
    var hits: nat
    var misses: nat

    /** The protocol's view: expiry times dropped. */
    ghost function View(): Shared
      reads this
    {
      Shared(Values(store), inflight, futures, locked)
    }

    static ghost function Values(s: Store): map<Key, Value> {
      map k | k in s :: s[k].value
    }

    static lemma PutInView(s: Store, kept: Store, key: Key, e: Entry)
      requires SubStore(kept, s)
      ensures Values(kept[key := e]) == (Values(s) - (s.Keys - kept.Keys))[key := e.value]
    {
      assert Values(kept) == Values(s) - (s.Keys - kept.Keys);
      assert Values(kept[key := e]) == Values(kept)[key := e.value];
    }

    constructor (defaultTtl: real, maxEntries: int)
      ensures this.defaultTtl == defaultTtl && this.maxEntries == maxEntries
      ensures store == map[] && View() == Shared(map[], map[], map[], false) && hits == misses == 0
    {
      this.defaultTtl, this.maxEntries := defaultTtl, maxEntries;
      store, inflight, futures, locked, hits, misses := map[], map[], map[], false, 0, 0;
    }

    /** With a bound below one the loop empties the store and then fails on an empty minimum. */
    method EvictIfFull(now: real) returns (ok: bool)
      modifies this`store
      ensures ok <==> maxEntries >= 1
      ensures ok ==> EvictedTo(maxEntries, old(store), now, store)
      ensures !ok ==> store == map[]
    {
      if |store| < maxEntries {
        return true;
      }
      store := map k | k in store && now < store[k].expires :: store[k];
      ghost var live := store;
      assert live == Live(old(store), now);
      while |store| >= maxEntries
        invariant SubStore(store, live)
        invariant |live| < maxEntries ==> store == live
        invariant |live| >= maxEntries >= 1 ==> |store| >= maxEntries - 1
        invariant forall j, k | j in live && j !in store && k in store :: live[j].expires <= live[k].expires
        decreases |store|
      {
        if store == map[] {
          return false;
        }
        var oldest := EarliestExpiring();
        ghost var before := store;
        store := store - {oldest};
        assert store.Keys == before.Keys - {oldest};
        assert |store| == |before| - 1;
      }
      assert maxEntries >= 1;
      if |live| < maxEntries {
        SubStoreSize(store, live);
      }
      return true;
    }

    /** `min(self._store, key=expiry)`. */
    method EarliestExpiring() returns (key: Key)
      requires store != map[]
      ensures key in store && forall k | k in store :: store[key].expires <= store[k].expires
    {
      key :| key in store;
      var rest := store.Keys - {key};
      while rest != {}
        invariant rest <= store.Keys && key in store
        invariant forall k | k in store && k !in rest :: store[key].expires <= store[k].expires
        decreases |rest|
      {
        var k :| k in rest;
        if store[k].expires < store[key].expires {
          key := k;
        }
        rest := rest - {k};
      }
    }

    method Get(key: Key, now: real) returns (answer: Outcome)
      requires !locked
      modifies this
      ensures Step(maxEntries, old(store), Read(key, now), store, answer)
      ensures View() == AfterLookup(old(View()), key, answer.Some?)
      ensures key in old(store) && now < old(store)[key].expires ==>
                answer == Some(old(store)[key].value) && store == old(store) &&
                hits == old(hits) + 1 && misses == old(misses)
      ensures !(key in old(store) && now < old(store)[key].expires) ==>
                answer == NoValue && store == old(store) - {key} && hits == old(hits) && misses == old(misses) + 1
    {
      if key in store {
        var entry := store[key];
        if now < entry.expires {
          hits := hits + 1;
          return Some(entry.value);
        }
        store := store - {key};
      }
      misses := misses + 1;
      return NoValue;
    }

    /** A ttl of zero is a ttl. */
    ghost function EntryFor(value: Value, ttl: Ttl, now: real): Entry {
      Entry(now + (if ttl.Unset? then defaultTtl else ttl.seconds), value)
    }

    /** `now` is read before the lock is taken.  false: the eviction raised. */
    method Set(key: Key, value: Value, ttl: Ttl, now: real) returns (ok: bool)
      requires !locked
      modifies this`store
      ensures ok <==> maxEntries >= 1
      ensures ok ==> Step(maxEntries, old(store), Put(key, EntryFor(value, ttl, now), now), store, NoValue)
      ensures ok ==> key in store && store[key].value == value
      ensures ok ==> store[key].expires == now + match ttl case Unset => defaultTtl case Seconds(s) => s
      ensures ok ==> forall k | k in store && k != key :: k in old(store) && store[k] == old(store)[k]
      ensures !ok ==> store == map[]
      ensures ok ==> exists gone :: View().store == (old(View()).store - gone)[key := value]
    {
      var seconds := if ttl.Unset? then defaultTtl else ttl.seconds;
      var entry := Entry(now + seconds, value);
      ok := EvictIfFull(now);
      if ok {
        PutInView(old(store), store, key, entry);
        store := store[key := entry];
      }
    }

    /** Second critical section of get_or_set. `early` is false for the code as it stands. */
    method Register(early: bool, caller: nat, key: Key) returns (seat: Seat)
      requires !locked && forall k | k in inflight :: inflight[k] in futures
      modifies this
      ensures seat == SeatOf(old(View()), key)
      ensures View() == AfterRegister(early, old(View()), caller, key) && store == old(store)
      ensures key !in old(inflight) ==>
                seat == Lead && inflight == old(inflight)[key := caller] &&
                futures == old(futures)[caller := Pending] && !locked
      ensures key in old(inflight) ==>
                && inflight == old(inflight) && futures == old(futures)
                && var leader := inflight[key];
                   match futures[leader]
                   case Pending => seat == Follow(leader) && locked == !early
                   case Resolved(outcome) => seat == Ready(leader, outcome) && !locked
    {
      if key in inflight {
        var leader := inflight[key];
        match futures[leader] {
          case Resolved(outcome) => return Ready(leader, outcome);
          case Pending =>
            locked := !early;
            return Follow(leader);
        }
      }
      futures := futures[caller := Pending];
      inflight := inflight[key := caller];
      return Lead;
    }

    /** The user coroutine ended.  None and exceptions resolve the future at once; a value has
        to be stored first. */
    method CoroutineEnded(caller: nat, result: Outcome)
      modifies this`futures
      ensures View() == AfterFinish(old(View()), caller, result)
      ensures !result.Some? ==> futures == old(futures)[caller := Resolved(result)]
      ensures result.Some? ==> futures == old(futures)
    {
      if !result.Some? {
        futures := futures[caller := Resolved(result)];
      }
    }

    /** With a bound below one the eviction raises, and the exception resolves the future as one
        of the coroutine would, over a store left empty. */
    method Publish(caller: nat, key: Key, value: Value, ttl: Ttl, now: real) returns (ok: bool)
      requires !locked
      modifies this`store, this`futures
      ensures ok <==> maxEntries >= 1
      ensures ok ==> Step(maxEntries, old(store), Put(key, EntryFor(value, ttl, now), now), store, NoValue)
      ensures ok ==> exists gone :: View() == AfterPublish(old(View()), caller, key, value, gone)
      ensures ok ==> key in store && store[key].value == value
      ensures ok ==> futures == old(futures)[caller := Resolved(Some(value))]
      ensures !ok ==> View() == AfterFinish(old(View()).(store := map[]), caller, Raised(EMPTY_MIN))
      ensures !ok ==> store == map[] && futures == old(futures)[caller := Resolved(Raised(EMPTY_MIN))]
    {
      ok := Set(key, value, ttl, now);
      if ok {
        ghost var gone :| View().store == (old(View()).store - gone)[key := value];
        futures := futures[caller := Resolved(Some(value))];
        assert View() == AfterPublish(old(View()), caller, key, value, gone);
      } else {
        futures := futures[caller := Resolved(Raised(EMPTY_MIN))];
      }
    }

    method Retire(key: Key)
      requires !locked
      modifies this`inflight
      ensures View() == AfterRetire(old(View()), key) && inflight == old(inflight) - {key}
    {
      inflight := inflight - {key};
    }

    method WakeFollower(early: bool, leader: nat) returns (outcome: Outcome)
      requires leader in futures && futures[leader].Resolved?
      modifies this`locked
      ensures outcome == futures[leader].outcome
      ensures View() == AfterWake(early, old(View())) && locked == (early && old(locked))
    {
      outcome := futures[leader].outcome;
      if !early {
        locked := false;
      }
    }

    method Clear()
      requires !locked
      modifies this`store, this`inflight, this`hits, this`misses
      ensures View() == AfterClear(old(View())) && hits == misses == 0
      ensures store == map[] && inflight == map[]
      ensures Step(maxEntries, old(store), Wipe, store, NoValue)
    {
      store, inflight, hits, misses := map[], map[], 0, 0;
    }
  }
}
