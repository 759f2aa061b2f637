/** The bounded TTL cache: what eviction may remove, and the cache as a refinement of an
    unbounded map with expiry times. */
module TtlStore {
  import opened SingleFlight

  datatype Entry = Entry(expires: real, value: Value)
  type Store = map<Key, Entry>

  function Live(s: Store, now: real): Store {
    map k | k in s && now < s[k].expires :: s[k]
  }

  ghost predicate SubStore(s: Store, t: Store) {
    forall k | k in s :: k in t && t[k] == s[k]
  }

  /** Nothing goes while there is room.  When there is none, what has expired goes, and if that
      does not make room, earliest-expiring entries go until one slot is free. */
  ghost predicate EvictedTo(max: int, s: Store, now: real, t: Store) {
    && SubStore(t, s)
    && (|s| < max ==> t == s)
    && (|s| >= max ==>
          && SubStore(t, Live(s, now))
          && |t| == (if |Live(s, now)| < max then |Live(s, now)| else max - 1)
          && forall j, k | j in Live(s, now) && j !in t && k in t :: s[j].expires <= s[k].expires)
  }

  /** One operation on the store and its answer. */
  datatype Op = Put(key: Key, entry: Entry, now: real) | Read(key: Key, now: real) | Wipe

  ghost predicate Step(max: int, s: Store, op: Op, t: Store, answer: Outcome) {
    match op
    case Put(k, e, now) => answer == NoValue && exists m :: EvictedTo(max, s, now, m) && t == m[k := e]
    case Read(k, now) =>
      if k in s && now < s[k].expires then answer == Some(s[k].value) && t == s
      else answer == NoValue && t == s - {k}
    case Wipe => answer == NoValue && t == map[]
  }

  ghost predicate Run(max: int, states: seq<Store>, ops: seq<Op>, answers: seq<Outcome>) {
    && |states| == |ops| + 1 && |answers| == |ops| && states[0] == map[]
    && forall i | 0 <= i < |ops| :: Step(max, states[i], ops[i], states[i + 1], answers[i])
  }

  /** What a cache without bound and without deletion of expired entries would hold. */
  function Ideal(ops: seq<Op>): Store {
    if ops == [] then map[]
    else
      var before := Ideal(ops[..|ops| - 1]);
      match ops[|ops| - 1]
      case Put(k, e, _) => before[k := e]
      case Read(_, _) => before
      case Wipe => map[]
  }

  function Clock(op: Op): real
    requires !op.Wipe?
  {
    op.now
  }

  ghost predicate Monotone(ops: seq<Op>) {
    forall i, j | 0 <= i < j < |ops| && !ops[i].Wipe? && !ops[j].Wipe? :: Clock(ops[i]) <= Clock(ops[j])
  }

  // ---------- eviction ----------

  lemma {:induction false} SubStoreSize(s: Store, t: Store)
    requires SubStore(s, t)
    ensures |s| <= |t|
    ensures |s| == |t| ==> s == t
    decreases |s|
  {
    assert s.Keys <= t.Keys;
    Subset(s.Keys, t.Keys);
  }

  lemma {:induction false} Subset(a: set<Key>, b: set<Key>)
    requires a <= b
    ensures |a| <= |b| && (|a| == |b| ==> a == b)
    decreases |a|
  {
    if a == {} {
    } else {
      var x :| x in a;
      Subset(a - {x}, b - {x});
      assert a == (a - {x}) + {x} && b == (b - {x}) + {x};
    }
  }

  lemma LiveAfterEviction(max: int, s: Store, now: real, m: Store)
    requires max >= 1 && |s| <= max && EvictedTo(max, s, now, m)
    ensures |m| < max && |Live(s, now)| - 1 <= |Live(m, now)| <= |Live(s, now)|
  {
    SubStoreSize(Live(s, now), s);
    SubStoreSize(Live(m, now), Live(s, now));
    if |s| >= max {
      assert Live(m, now) == m;
    }
  }

  /** A set loses at most one unexpired entry, and only an earliest-expiring one; afterwards
      the size is again within the bound. */
  lemma PutCost(max: int, s: Store, now: real, m: Store, k: Key, e: Entry)
    requires max >= 1 && |s| <= max && EvictedTo(max, s, now, m)
    ensures |m[k := e]| <= max
    ensures |Live(s, now)| - 1 <= |Live(m, now)| <= |Live(s, now)|
    ensures forall j, i | j in Live(s, now) && j !in m && i in m :: s[j].expires <= s[i].expires
  {
    LiveAfterEviction(max, s, now, m);
    assert m[k := e].Keys == m.Keys + {k};
    assert |m.Keys| == |m|;
  }

  lemma StepBounded(max: int, s: Store, op: Op, t: Store, answer: Outcome)
    requires max >= 1 && |s| <= max && Step(max, s, op, t, answer)
    ensures |t| <= max
  {
    match op
    case Put(k, e, now) =>
      var m :| EvictedTo(max, s, now, m) && t == m[k := e];
      PutCost(max, s, now, m, k, e);
    case Read(k, now) => SubStoreSize(t, s);
    case Wipe =>
  }

  lemma {:induction false} BoundedAlways(max: int, states: seq<Store>, ops: seq<Op>, answers: seq<Outcome>, i: nat)
    requires max >= 1 && Run(max, states, ops, answers) && i <= |ops|
    ensures |states[i]| <= max
  {
    if i == 0 {
    } else {
      BoundedAlways(max, states, ops, answers, i - 1);
      StepBounded(max, states[i - 1], ops[i - 1], states[i], answers[i - 1]);
    }
  }

  // ---------- refinement ----------

  /** What has just been set is read back until it expires, however full the cache was. */
  lemma ReadsOwnWrite(max: int, s: Store, k: Key, e: Entry, now: real, t: Store, later: real, u: Store, answer: Outcome)
    requires Step(max, s, Put(k, e, now), t, NoValue) && Step(max, t, Read(k, later), u, answer)
    ensures answer == if later < e.expires then Some(e.value) else NoValue
  {
    var m :| EvictedTo(max, s, now, m) && t == m[k := e];
  }

  lemma {:induction false} HoldsOnlyLatest(max: int, states: seq<Store>, ops: seq<Op>, answers: seq<Outcome>, i: nat)
    requires Run(max, states, ops, answers) && i <= |ops|
    ensures SubStore(states[i], Ideal(ops[..i]))
  {
    if i == 0 {
    } else {
      HoldsOnlyLatest(max, states, ops, answers, i - 1);
      assert ops[..i][..i - 1] == ops[..i - 1];
      assert Step(max, states[i - 1], ops[i - 1], states[i], answers[i - 1]);
    }
  }

  /** Every hit is the value of the latest set of that key since the last clear, unexpired. */
  lemma HitsAreLatest(max: int, states: seq<Store>, ops: seq<Op>, answers: seq<Outcome>, i: nat)
    requires Run(max, states, ops, answers) && i < |ops| && ops[i].Read? && answers[i].Some?
    ensures var ideal := Ideal(ops[..i]);
            ops[i].key in ideal && ideal[ops[i].key].value == answers[i].value
            && ops[i].now < ideal[ops[i].key].expires
  {
    HoldsOnlyLatest(max, states, ops, answers, i);
    assert Step(max, states[i], ops[i], states[i + 1], answers[i]);
  }

  /** No set of the first n operations finds the cache full of keys. */
  ghost predicate Roomy(max: int, ops: seq<Op>) {
    forall i | 0 <= i < |ops| && ops[i].Put? :: |Ideal(ops[..i])| < max
  }

  lemma {:induction false} KeepsAllLive(max: int, states: seq<Store>, ops: seq<Op>, answers: seq<Outcome>, i: nat)
    requires Run(max, states, ops, answers) && Monotone(ops) && Roomy(max, ops) && i <= |ops|
    ensures forall j, k | i <= j < |ops| && !ops[j].Wipe? && k in Live(Ideal(ops[..i]), Clock(ops[j])) ::
              k in states[i]
  {
    if i == 0 {
    } else {
      KeepsAllLive(max, states, ops, answers, i - 1);
      HoldsOnlyLatest(max, states, ops, answers, i - 1);
      assert ops[..i][..i - 1] == ops[..i - 1];
      var s, op := states[i - 1], ops[i - 1];
      assert Step(max, s, op, states[i], answers[i - 1]);
      SubStoreSize(s, Ideal(ops[..i - 1]));
      forall j, k | i <= j < |ops| && !ops[j].Wipe? && k in Live(Ideal(ops[..i]), Clock(ops[j]))
        ensures k in states[i]
      {
        if !op.Wipe? && (op.Put? ==> k != op.key) {
          assert k in Live(Ideal(ops[..i - 1]), Clock(ops[j]));
          assert k in s && s[k] == Ideal(ops[..i - 1])[k];
          assert Clock(op) <= Clock(ops[j]);
        }
      }
    }
  }

  /** While fewer distinct keys than max_entries have been set since the last clear, the bound
      is invisible: reads answer exactly as the unbounded map would. */
  lemma ExactWhileRoomy(max: int, states: seq<Store>, ops: seq<Op>, answers: seq<Outcome>, i: nat)
    requires Run(max, states, ops, answers) && Monotone(ops) && Roomy(max, ops)
    requires i < |ops| && ops[i].Read?
    ensures var live := Live(Ideal(ops[..i]), ops[i].now);
            answers[i] == if ops[i].key in live then Some(live[ops[i].key].value) else NoValue
  {
    assert Step(max, states[i], ops[i], states[i + 1], answers[i]);
    HoldsOnlyLatest(max, states, ops, answers, i);
    KeepsAllLive(max, states, ops, answers, i);
    assert Clock(ops[i]) == ops[i].now;
  }

  // ---------- overwriting ----------

  /** Going from s to t at time now, an entry under another key than k is lost unexpired. */
  ghost predicate LosesAnother(s: Store, now: real, k: Key, t: Store) {
    exists j :: j in Live(s, now) && j != k && j !in t
  }

  /** Another live entry expires no later, or even earlier, than that of k. */
  ghost predicate OtherByThen(s: Store, now: real, k: Key, strictly: bool)
    requires k in s
  {
    exists j :: j in Live(s, now) && j != k &&
                (if strictly then s[j].expires < s[k].expires else s[j].expires <= s[k].expires)
  }

  lemma {:induction false} Earliest(s: Store) returns (k: Key)
    requires s != map[]
    ensures k in s && forall j | j in s :: s[k].expires <= s[j].expires
    decreases |s|
  {
    var a :| a in s;
    var rest := s - {a};
    if rest == map[] {
      k := a;
      assert s.Keys == {a} + rest.Keys;
    } else {
      assert rest.Keys == s.Keys - {a};
      assert |rest| == |rest.Keys|;
      var b := Earliest(rest);
      k := if s[a].expires <= s[b].expires then a else b;
    }
  }

  /** A full cache of live entries may give up any earliest-expiring one. */
  lemma MayEvict(max: int, s: Store, now: real, j: Key)
    requires 1 <= max == |s| && Live(s, now) == s && j in s
    requires forall i | i in s :: s[j].expires <= s[i].expires
    ensures EvictedTo(max, s, now, s - {j})
  {
    assert (s - {j}).Keys == s.Keys - {j};
    assert |s - {j}| == |(s - {j}).Keys|;
  }

  /** And gives up just one. */
  lemma EvictsOne(max: int, s: Store, now: real, m: Store) returns (j: Key)
    requires 1 <= max == |s| && Live(s, now) == s && EvictedTo(max, s, now, m)
    ensures j in s && j !in m && forall i | i in s && i != j :: i in m
    ensures forall i | i in s :: s[j].expires <= s[i].expires
  {
    assert m.Keys <= s.Keys;
    assert |m.Keys| == |m| && |s.Keys| == |s|;
    assert s.Keys == m.Keys + (s.Keys - m.Keys);
    j :| j in s.Keys - m.Keys;
    assert |s.Keys - m.Keys - {j}| == 0;
  }

  lemma FullOfLive(max: int, s: Store, now: real)
    requires |s| <= max
    ensures |Live(s, now)| <= |s|
    ensures |Live(s, now)| >= max ==> Live(s, now) == s && |s| == max
  {
    SubStoreSize(Live(s, now), s);
  }

  /** While expired entries can make the room, no live one is lost. */
  lemma RoomKeepsAll(max: int, s: Store, now: real, m: Store)
    requires |Live(s, now)| < max && EvictedTo(max, s, now, m)
    ensures forall j | j in Live(s, now) :: j in m
  {
    if |s| >= max {
      SubStoreSize(m, Live(s, now));
    }
  }

  /** When an overwrite costs the cache another live entry, exactly.  It is bound to if the
      cache is full of live entries and one under another key expires earlier than the one
      overwritten; it may, as ties are broken, if one expires no later. */
  lemma OverwriteCostsIff(max: int, s: Store, k: Key, e: Entry, now: real)
    requires max >= 1 && |s| <= max && k in s
    ensures (forall t | Step(max, s, Put(k, e, now), t, NoValue) :: LosesAnother(s, now, k, t)) <==>
              |Live(s, now)| >= max && OtherByThen(s, now, k, true)
    ensures (exists t :: Step(max, s, Put(k, e, now), t, NoValue) && LosesAnother(s, now, k, t)) <==>
              |Live(s, now)| >= max && OtherByThen(s, now, k, false)
  {
    FullOfLive(max, s, now);
    if |Live(s, now)| < max {
      RoomyOverwrite(max, s, k, e, now);
    } else {
      FullOverwriteMust(max, s, k, e, now);
      FullOverwriteMay(max, s, k, e, now);
    }
  }

  lemma RoomyOverwrite(max: int, s: Store, k: Key, e: Entry, now: real)
    requires max >= 1 && |s| <= max && k in s && |Live(s, now)| < max
    ensures forall t | Step(max, s, Put(k, e, now), t, NoValue) :: !LosesAnother(s, now, k, t)
    ensures exists t :: Step(max, s, Put(k, e, now), t, NoValue)
  {
    forall t | Step(max, s, Put(k, e, now), t, NoValue) ensures !LosesAnother(s, now, k, t) {
      var m :| EvictedTo(max, s, now, m) && t == m[k := e];
      RoomKeepsAll(max, s, now, m);
    }
    var m := if |s| < max then s else Live(s, now);
    assert EvictedTo(max, s, now, m);
    assert Step(max, s, Put(k, e, now), m[k := e], NoValue);
  }

  lemma FullOverwriteMust(max: int, s: Store, k: Key, e: Entry, now: real)
    requires 1 <= max == |s| && k in s && Live(s, now) == s
    ensures (forall t | Step(max, s, Put(k, e, now), t, NoValue) :: LosesAnother(s, now, k, t)) <==>
              OtherByThen(s, now, k, true)
  {
    if OtherByThen(s, now, k, true) {
      forall t | Step(max, s, Put(k, e, now), t, NoValue) ensures LosesAnother(s, now, k, t) {
        var m :| EvictedTo(max, s, now, m) && t == m[k := e];
        var j := EvictsOne(max, s, now, m);
        assert j in Live(s, now) && j != k && j !in t;
      }
    } else {
      var t := (s - {k})[k := e];
      MayEvict(max, s, now, k);
      assert Step(max, s, Put(k, e, now), t, NoValue);
      assert !LosesAnother(s, now, k, t);
    }
  }

  lemma FullOverwriteMay(max: int, s: Store, k: Key, e: Entry, now: real)
    requires 1 <= max == |s| && k in s && Live(s, now) == s
    ensures (exists t :: Step(max, s, Put(k, e, now), t, NoValue) && LosesAnother(s, now, k, t)) <==>
              OtherByThen(s, now, k, false)
  {
    if OtherByThen(s, now, k, false) {
      var i :| i in s && i != k && s[i].expires <= s[k].expires;
      assert i in s - {k};
      var j := Earliest(s - {k});
      assert forall h | h in s :: h == k || (h in s - {k} && (s - {k})[h] == s[h]);
      MayEvict(max, s, now, j);
      var t := (s - {j})[k := e];
      assert Step(max, s, Put(k, e, now), t, NoValue);
      assert j in Live(s, now) && j != k && j !in t;
    } else {
      forall t | Step(max, s, Put(k, e, now), t, NoValue) ensures !LosesAnother(s, now, k, t) {
        var m :| EvictedTo(max, s, now, m) && t == m[k := e];
        var j := EvictsOne(max, s, now, m);
        assert j in Live(s, now) && s[j].expires <= s[k].expires;
      }
    }
  }

  /** It happens: two live keys in a cache for two, and the other one is lost. */
  lemma OverwriteEvicts(a: Key, b: Key, v: Value, w: Value)
    requires a != b
    ensures var full := map[a := Entry(10.0, v), b := Entry(5.0, v)];
            var put := Put(a, Entry(11.0, w), 1.0);
            && Step(2, full, put, map[a := Entry(11.0, w)], NoValue)
            && forall t, answer | Step(2, full, put, t, answer) :: t == map[a := Entry(11.0, w)]
  {
    var full := map[a := Entry(10.0, v), b := Entry(5.0, v)];
    assert full.Keys == {a, b};
    assert |full| == |full.Keys| == 2;
    assert Live(full, 1.0) == full;
    assert EvictedTo(2, full, 1.0, map[a := Entry(10.0, v)]);
    assert map[a := Entry(10.0, v)][a := Entry(11.0, w)] == map[a := Entry(11.0, w)];
    forall m | EvictedTo(2, full, 1.0, m) ensures m == map[a := Entry(10.0, v)] {
      assert m.Keys <= {a, b} && |m.Keys| == 1;
      assert b in m ==> a in m;
      assert b in m ==> m.Keys == {a, b};
      assert m.Keys <= {a};
      Subset(m.Keys, {a});
    }
  }
}
