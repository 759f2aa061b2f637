/** What the hybrid cache does to its memory tier, with times, whenever Redis has no answer; and
    the hybrid cache without Redis as a map with expiry times. */
module HybridMemory {
  import opened SingleFlight
  import TtlStore

  type Store = TtlStore.Store
  type Entry = TtlStore.Entry

  /** now: when the call looks the key up.  landed: when a fetched value is stored; the entry
      expires ttl seconds later.  mirrored: the ttl set_mcp gives it before. */
  datatype Call =
    | Get(key: Key, now: real)
    | Set(key: Key, value: Value, ttl: real, now: real)
    | SetMcp(key: Key, value: Value, ttl: real, now: real)
    | GetOrSet(key: Key, fetched: Outcome, ttl: real, now: real, landed: real)
    | GetOrSetMcp(key: Key, fetched: Outcome, mirrored: real, ttl: real, now: real, landed: real)
    | Clear

  ghost predicate Reads(max: int, s: Store, k: Key, now: real, t: Store, answer: Outcome) {
    TtlStore.Step(max, s, TtlStore.Read(k, now), t, answer)
  }

  ghost predicate Puts(max: int, s: Store, k: Key, v: Value, ttl: real, now: real, t: Store) {
    TtlStore.Step(max, s, TtlStore.Put(k, TtlStore.Entry(now + ttl, v), now), t, NoValue)
  }

  /** set_mcp within the cap and then the single-flight layer: the value is put twice. */
  ghost predicate PutsMcp(max: int, cap: nat, s: Store, k: Key, v: Value, mirrored: real, ttl: real, now: real,
                          t: Store)
  {
    if |v| > cap then Puts(max, s, k, v, ttl, now, t)
    else exists p :: Puts(max, s, k, v, mirrored, now, p) && Puts(max, p, k, v, ttl, now, t)
  }

  /** Read (giving m and a), and on a miss fetch and put. */
  ghost predicate ReadsThrough(max: int, cap: nat, s: Store, c: Call, t: Store, answer: Outcome, m: Store, a: Outcome)
    requires c.GetOrSet? || c.GetOrSetMcp?
  {
    && Reads(max, s, c.key, c.now, m, a)
    && answer == (if a.Some? then a else c.fetched)
    && if a.Some? || !c.fetched.Some? then t == m
       else if c.GetOrSet? then Puts(max, m, c.key, c.fetched.value, c.ttl, c.landed, t)
       else PutsMcp(max, cap, m, c.key, c.fetched.value, c.mirrored, c.ttl, c.landed, t)
  }

  ghost predicate Step(max: int, cap: nat, s: Store, c: Call, t: Store, answer: Outcome) {
    match c
    case Get(k, now) => Reads(max, s, k, now, t, answer)
    case Set(k, v, ttl, now) => answer == NoValue && Puts(max, s, k, v, ttl, now, t)
    case SetMcp(k, v, ttl, now) => answer == NoValue && if |v| > cap then t == s else Puts(max, s, k, v, ttl, now, t)
    case GetOrSet(_, _, _, _, _) => exists m, a :: ReadsThrough(max, cap, s, c, t, answer, m, a)
    case GetOrSetMcp(_, _, _, _, _, _) => exists m, a :: ReadsThrough(max, cap, s, c, t, answer, m, a)
    case Clear => answer == NoValue && t == map[]
  }

  ghost predicate Run(max: int, cap: nat, states: seq<Store>, calls: seq<Call>, answers: seq<Outcome>) {
    && |states| == |calls| + 1 && |answers| == |calls| && states[0] == map[]
    && forall i | 0 <= i < |calls| :: Step(max, cap, states[i], calls[i], states[i + 1], answers[i])
  }

  // ---------- a map with expiry times ----------

  function Lookup(s: Store, k: Key, now: real): Outcome {
    if k in s && now < s[k].expires then Some(s[k].value) else NoValue
  }

  function IdealAnswer(s: Store, c: Call): Outcome {
    match c
    case Get(k, now) => Lookup(s, k, now)
    case GetOrSet(k, fetched, _, now, _) => if Lookup(s, k, now).Some? then Lookup(s, k, now) else fetched
    case GetOrSetMcp(k, fetched, _, _, now, _) => if Lookup(s, k, now).Some? then Lookup(s, k, now) else fetched
    case _ => NoValue
  }

  function IdealStep(cap: nat, s: Store, c: Call): Store {
    match c
    case Get(_, _) => s
    case Set(k, v, ttl, now) => s[k := TtlStore.Entry(now + ttl, v)]
    case SetMcp(k, v, ttl, now) => if |v| > cap then s else s[k := TtlStore.Entry(now + ttl, v)]
    case GetOrSet(k, fetched, ttl, now, landed) =>
      if Lookup(s, k, now).Some? || !fetched.Some? then s else s[k := TtlStore.Entry(landed + ttl, fetched.value)]
    case GetOrSetMcp(k, fetched, _, ttl, now, landed) =>
      if Lookup(s, k, now).Some? || !fetched.Some? then s else s[k := TtlStore.Entry(landed + ttl, fetched.value)]
    case Clear => map[]
  }

  function IdealAfter(cap: nat, calls: seq<Call>): Store {
    if calls == [] then map[] else IdealStep(cap, IdealAfter(cap, calls[..|calls| - 1]), calls[|calls| - 1])
  }

  /** When a call ends, if it starts at the time given at the earliest. */
  function Ends(c: Call, earliest: real): real {
    match c
    case Get(_, now) => now
    case Set(_, _, _, now) => now
    case SetMcp(_, _, _, now) => now
    case GetOrSet(_, _, _, _, landed) => landed
    case GetOrSetMcp(_, _, _, _, _, landed) => landed
    case Clear => earliest
  }

  predicate Timely(c: Call, clock: real) {
    match c
    case Get(_, now) => clock <= now
    case Set(_, _, _, now) => clock <= now
    case SetMcp(_, _, _, now) => clock <= now
    case GetOrSet(_, _, _, now, landed) => clock <= now <= landed
    case GetOrSetMcp(_, _, _, _, now, landed) => clock <= now <= landed
    case Clear => true
  }

  function ClockAfter(calls: seq<Call>, start: real): real {
    if calls == [] then start else Ends(calls[|calls| - 1], ClockAfter(calls[..|calls| - 1], start))
  }

  /** The clock never runs backwards. */
  ghost predicate Clocked(calls: seq<Call>, start: real) {
    forall i | 0 <= i < |calls| :: Timely(calls[i], ClockAfter(calls[..i], start))
  }

  /** The keys written since the last clear leave a slot free. */
  ghost predicate Roomy(max: int, cap: nat, calls: seq<Call>) {
    forall i | 0 <= i <= |calls| :: |IdealAfter(cap, calls[..i])| < max
  }

  /** s holds of the map what is alive, and nothing else. */
  ghost predicate Follows(s: Store, ideal: Store, clock: real) {
    && TtlStore.SubStore(s, ideal)
    && forall k | k in ideal && clock < ideal[k].expires :: k in s
  }

  lemma ReadFollows(max: int, s: Store, ideal: Store, k: Key, now: real, t: Store, answer: Outcome, clock: real)
    requires Follows(s, ideal, clock) && clock <= now && Reads(max, s, k, now, t, answer)
    ensures Follows(t, ideal, now) && answer == Lookup(ideal, k, now)
  {
  }

  lemma PutFollows(max: int, s: Store, ideal: Store, k: Key, v: Value, ttl: real, now: real, t: Store, clock: real)
    requires Follows(s, ideal, clock) && clock <= now && Puts(max, s, k, v, ttl, now, t)
    requires |ideal[k := TtlStore.Entry(now + ttl, v)]| < max
    ensures Follows(t, ideal[k := TtlStore.Entry(now + ttl, v)], now)
  {
    TtlStore.SubStoreSize(s, ideal);
    assert |ideal| <= |ideal[k := TtlStore.Entry(now + ttl, v)]| by {
      TtlStore.Subset(ideal.Keys, ideal[k := TtlStore.Entry(now + ttl, v)].Keys);
      assert |ideal| == |ideal.Keys|;
    }
  }

  lemma PutTwiceFollows(max: int, cap: nat, s: Store, ideal: Store, k: Key, v: Value, mirrored: real, ttl: real,
                        now: real, t: Store, clock: real)
    requires Follows(s, ideal, clock) && clock <= now && PutsMcp(max, cap, s, k, v, mirrored, ttl, now, t)
    requires |ideal[k := TtlStore.Entry(now + ttl, v)]| < max
    ensures Follows(t, ideal[k := TtlStore.Entry(now + ttl, v)], now)
  {
    hide Puts, Follows;
    if |v| > cap {
      PutFollows(max, s, ideal, k, v, ttl, now, t, clock);
    } else {
      var p :| Puts(max, s, k, v, mirrored, now, p) && Puts(max, p, k, v, ttl, now, t);
      Overwritten(ideal, k, TtlStore.Entry(now + mirrored, v), TtlStore.Entry(now + ttl, v));
      PutFollows(max, s, ideal, k, v, mirrored, now, p, clock);
      PutFollows(max, p, ideal[k := TtlStore.Entry(now + mirrored, v)], k, v, ttl, now, t, now);
    }
  }

  lemma Overwritten(s: Store, k: Key, d: Entry, e: Entry)
    ensures s[k := d][k := e] == s[k := e] && |s[k := d]| == |s[k := e]|
  {
    assert s[k := d].Keys == s[k := e].Keys;
    assert |s[k := d]| == |s[k := d].Keys| && |s[k := e]| == |s[k := e].Keys|;
  }

  lemma TimePasses(s: Store, ideal: Store, clock: real, later: real)
    requires Follows(s, ideal, clock) && clock <= later
    ensures Follows(s, ideal, later)
  {
  }

  lemma ReadThroughFollows(max: int, cap: nat, s: Store, ideal: Store, c: Call, t: Store, answer: Outcome, clock: real)
    requires c.GetOrSet? || c.GetOrSetMcp?
    requires Follows(s, ideal, clock) && Timely(c, clock) && Step(max, cap, s, c, t, answer)
    requires |IdealStep(cap, ideal, c)| < max
    ensures Follows(t, IdealStep(cap, ideal, c), Ends(c, clock)) && answer == IdealAnswer(ideal, c)
  {
    hide Reads, Puts, PutsMcp, Follows;
    var m, a :| ReadsThrough(max, cap, s, c, t, answer, m, a);
    ReadFollows(max, s, ideal, c.key, c.now, m, a, clock);
    TimePasses(m, ideal, c.now, c.landed);
    if !a.Some? && c.fetched.Some? {
      if c.GetOrSet? {
        PutFollows(max, m, ideal, c.key, c.fetched.value, c.ttl, c.landed, t, c.now);
      } else {
        PutTwiceFollows(max, cap, m, ideal, c.key, c.fetched.value, c.mirrored, c.ttl, c.landed, t, c.now);
      }
    }
  }

  lemma StepFollows(max: int, cap: nat, s: Store, ideal: Store, c: Call, t: Store, answer: Outcome, clock: real)
    requires Follows(s, ideal, clock) && Timely(c, clock) && Step(max, cap, s, c, t, answer)
    requires |IdealStep(cap, ideal, c)| < max
    ensures Follows(t, IdealStep(cap, ideal, c), Ends(c, clock)) && answer == IdealAnswer(ideal, c)
  {
    hide Reads, Puts, PutsMcp, ReadsThrough;
    match c
    case Get(k, now) => ReadFollows(max, s, ideal, k, now, t, answer, clock);
    case Set(k, v, ttl, now) => PutFollows(max, s, ideal, k, v, ttl, now, t, clock);
    case SetMcp(k, v, ttl, now) =>
      if |v| <= cap {
        PutFollows(max, s, ideal, k, v, ttl, now, t, clock);
      }
    case GetOrSet(_, _, _, _, _) => ReadThroughFollows(max, cap, s, ideal, c, t, answer, clock);
    case GetOrSetMcp(_, _, _, _, _, _) => ReadThroughFollows(max, cap, s, ideal, c, t, answer, clock);
    case Clear =>
  }

  lemma {:induction false} RunFollows(max: int, cap: nat, states: seq<Store>, calls: seq<Call>, answers: seq<Outcome>,
                                      start: real, i: nat)
    requires Run(max, cap, states, calls, answers) && Clocked(calls, start) && Roomy(max, cap, calls) && i <= |calls|
    ensures Follows(states[i], IdealAfter(cap, calls[..i]), ClockAfter(calls[..i], start))
  {
    hide Step, Timely, Follows, IdealStep, Ends;
    if i == 0 {
      NothingYet(start);
    } else {
      var k := i - 1;
      RunFollows(max, cap, states, calls, answers, start, k);
      assert calls[..i][..k] == calls[..k];
      StepFollows(max, cap, states[k], IdealAfter(cap, calls[..k]), calls[k], states[i], answers[k],
                  ClockAfter(calls[..k], start));
    }
  }

  lemma NothingYet(start: real)
    ensures Follows(map[], map[], start)
  {
  }

  /** Without Redis the hybrid cache is a map with expiry times: as long as the keys written since
      the last clear leave a slot free, every get and every read-through answers as that map
      does.  What was set is read back until it expires, and nothing is fetched in between. */
  lemma AnswersAsMap(max: int, cap: nat, states: seq<Store>, calls: seq<Call>, answers: seq<Outcome>,
                     start: real, i: nat)
    requires Run(max, cap, states, calls, answers) && Clocked(calls, start) && Roomy(max, cap, calls) && i < |calls|
    ensures answers[i] == IdealAnswer(IdealAfter(cap, calls[..i]), calls[i])
  {
    hide Step, Timely, Follows, IdealStep, Ends, IdealAnswer;
    RunFollows(max, cap, states, calls, answers, start, i);
    assert calls[..i + 1][..i] == calls[..i];
    StepFollows(max, cap, states[i], IdealAfter(cap, calls[..i]), calls[i], states[i + 1], answers[i],
                ClockAfter(calls[..i], start));
  }

  // ---------- one call after another, however full the cache is ----------

  /** What the memory tier holds under the key of a call after it, and what the call answers. */
  lemma CallStores(max: int, cap: nat, s: Store, c: Call, t: Store, answer: Outcome)
    requires Step(max, cap, s, c, t, answer)
    ensures c.Set? ==> c.key in t && t[c.key] == TtlStore.Entry(c.now + c.ttl, c.value)
    ensures c.SetMcp? && |c.value| <= cap ==> c.key in t && t[c.key] == TtlStore.Entry(c.now + c.ttl, c.value)
    ensures c.SetMcp? && |c.value| > cap ==> t == s
    ensures c.Clear? ==> t == map[]
    ensures c.Get? ==>
              if c.key in s && c.now < s[c.key].expires then answer == Some(s[c.key].value) && t == s
              else answer == NoValue && t == s - {c.key}
    ensures c.GetOrSet? || c.GetOrSetMcp? ==>
              if c.key in s && c.now < s[c.key].expires then answer == Some(s[c.key].value) && t == s
              else
                && answer == c.fetched
                && (!c.fetched.Some? ==> t == s - {c.key})
                && (c.fetched.Some? ==>
                      c.key in t && t[c.key] == TtlStore.Entry(c.landed + c.ttl, c.fetched.value))
  {
  }

  /** What is stored is what the next call on the key answers until it expires: a get, and a
      read-through, which fetches only afterwards. */
  lemma ReadBack(max: int, cap: nat, s: Store, k: Key, e: Entry, c: Call, t: Store, answer: Outcome)
    requires k in s && s[k] == e && (c.Get? || c.GetOrSet? || c.GetOrSetMcp?) && c.key == k
    requires Step(max, cap, s, c, t, answer)
    ensures answer == if c.now < e.expires then Some(e.value) else if c.Get? then NoValue else c.fetched
  {
    CallStores(max, cap, s, c, t, answer);
  }
}
