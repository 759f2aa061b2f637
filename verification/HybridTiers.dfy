/** The two-tier cache as a relation between tiers, and what survives arbitrary Redis failures
    in sequential single-process runs.  Values stand for their JSON text, which is ASCII, so
    its length is its size in bytes; keys stand for hashed (namespace, scope, data) triples. */
module HybridTiers {
  import opened SingleFlight

  datatype Tiers = Tiers(mem: map<Key, Value>, redis: map<Key, Value>, useRedis: bool)

  /** A Redis write may fail or time out after the server has applied it. */
  datatype Write = Stored | Failed(applied: bool)

  datatype Op =
    | Get(key: Key, up: bool)
    | Set(key: Key, value: Value, write: Write)
    | GetOrSet(key: Key, up: bool, fetched: Outcome, write: Write)
    | SetMcp(key: Key, value: Value, write: Write)
    | GetOrSetMcp(key: Key, up: bool, fetched: Outcome, write: Write)
    | Clear(flushed: bool)
    | Expire(keys: set<Key>)  // Redis drops keys on its own

  /** The memory tier may have lost an entry to expiry or eviction. */
  ghost predicate MemRead(m: map<Key, Value>, k: Key, m': map<Key, Value>, answer: Outcome) {
    || (answer == NoValue && m' == m - {k})
    || (k in m && answer == Some(m[k]) && m' == m)
  }

  ghost predicate MemWrite(m: map<Key, Value>, k: Key, v: Value, m': map<Key, Value>) {
    exists gone: set<Key> :: m' == (m - gone)[k := v]
  }

  ghost predicate Read(t: Tiers, k: Key, up: bool, t': Tiers, answer: Outcome) {
    if t.useRedis && up && k in t.redis then t' == t && answer == Some(t.redis[k])
    else t'.redis == t.redis && t'.useRedis == (t.useRedis && up) && MemRead(t.mem, k, t'.mem, answer)
  }

  function RedisAfter(t: Tiers, k: Key, v: Value, w: Write): map<Key, Value> {
    if t.useRedis && (w.Stored? || w.applied) then t.redis[k := v] else t.redis
  }

  /** set and set_mcp: memory first, then Redis; a failed Redis write switches to memory for good. */
  ghost predicate Mirror(t: Tiers, k: Key, v: Value, w: Write, t': Tiers) {
    MemWrite(t.mem, k, v, t'.mem) && t'.redis == RedisAfter(t, k, v, w) && t'.useRedis == (t.useRedis && w.Stored?)
  }

  /** get_or_set after a miss: Redis first, its failure swallowed, then memory. */
  ghost predicate Fill(t: Tiers, k: Key, v: Value, w: Write, t': Tiers) {
    MemWrite(t.mem, k, v, t'.mem) && t'.redis == RedisAfter(t, k, v, w) && t'.useRedis == t.useRedis
  }

  ghost predicate FillMcp(cap: nat, t: Tiers, k: Key, v: Value, w: Write, t': Tiers) {
    // an oversize value skips set_mcp but is still kept in memory by the single-flight layer
    if |v| > cap then MemWrite(t.mem, k, v, t'.mem) && t'.redis == t.redis && t'.useRedis == t.useRedis
    else exists m :: Mirror(t, k, v, w, t'.(mem := m)) && MemWrite(m, k, v, t'.mem)
  }

  /** Read (giving r and a), and on a miss fetch and fill. */
  ghost predicate ReadThrough(cap: nat, mcp: bool, t: Tiers, k: Key, up: bool, fetched: Outcome, w: Write,
                              t': Tiers, answer: Outcome, r: Tiers, a: Outcome)
  {
    && Read(t, k, up, r, a)
    && answer == (if a.Some? then a else fetched)
    && if a.Some? || !fetched.Some? then t' == r
       else if mcp then FillMcp(cap, r, k, fetched.value, w, t')
       else Fill(r, k, fetched.value, w, t')
  }

  ghost predicate Step(cap: nat, t: Tiers, op: Op, t': Tiers, answer: Outcome) {
    match op
    case Get(k, up) => Read(t, k, up, t', answer)
    case Set(k, v, w) => Mirror(t, k, v, w, t') && answer == NoValue
    case GetOrSet(k, up, fetched, w) =>
      exists r, a :: ReadThrough(cap, false, t, k, up, fetched, w, t', answer, r, a)
    case SetMcp(k, v, w) => answer == NoValue && if |v| > cap then t' == t else Mirror(t, k, v, w, t')
    case GetOrSetMcp(k, up, fetched, w) =>
      exists r, a :: ReadThrough(cap, true, t, k, up, fetched, w, t', answer, r, a)
    case Clear(flushed) =>
      answer == NoValue && t' == Tiers(map[], if t.useRedis && flushed then map[] else t.redis, t.useRedis)
    case Expire(keys) => answer == NoValue && t' == t.(redis := t.redis - keys)
  }

  /** The last value written under each key; what an operation wrote shows in its answer. */
  function Latest(cap: nat, latest: map<Key, Value>, op: Op, answer: Outcome): map<Key, Value> {
    match op
    case Set(k, v, _) => latest[k := v]
    case SetMcp(k, v, _) => if |v| > cap then latest else latest[k := v]
    case GetOrSet(k, _, _, _) => if answer.Some? then latest[k := answer.value] else latest
    case GetOrSetMcp(k, _, _, _) => if answer.Some? then latest[k := answer.value] else latest
    case _ => latest
  }

  /** A new process: memory is empty, Redis may hold what earlier ones wrote. */
  ghost predicate Run(cap: nat, states: seq<Tiers>, ops: seq<Op>, answers: seq<Outcome>) {
    && |states| == |ops| + 1 && |answers| == |ops| && states[0].mem == map[]
    && forall i | 0 <= i < |ops| :: Step(cap, states[i], ops[i], states[i + 1], answers[i])
  }

  /** `first` is what Redis held at the start. */
  function LatestAfter(cap: nat, first: map<Key, Value>, ops: seq<Op>, answers: seq<Outcome>): map<Key, Value>
    requires |ops| == |answers|
    decreases |ops|
  {
    if ops == [] then first
    else
      var n := |ops| - 1;
      Latest(cap, LatestAfter(cap, first, ops[..n], answers[..n]), ops[n], answers[n])
  }

  /** Memory holds latest values only, and so does Redis while it is in use. */
  ghost predicate Coherent(t: Tiers, latest: map<Key, Value>) {
    && (forall k | k in t.mem :: k in latest && t.mem[k] == latest[k])
    && (t.useRedis ==> forall k | k in t.redis :: k in latest && t.redis[k] == latest[k])
  }

  lemma ReadCoherent(t: Tiers, latest: map<Key, Value>, k: Key, up: bool, r: Tiers, a: Outcome)
    requires Coherent(t, latest) && Read(t, k, up, r, a)
    ensures Coherent(r, latest) && (a.Some? ==> k in latest && a.value == latest[k])
    ensures !a.Some? ==> a == NoValue && k !in r.mem && (r.useRedis ==> k !in r.redis)
  {
  }

  lemma MirrorCoherent(t: Tiers, latest: map<Key, Value>, k: Key, v: Value, w: Write, t': Tiers)
    requires Coherent(t, latest) && Mirror(t, k, v, w, t')
    ensures Coherent(t', latest[k := v])
  {
  }

  /** A swallowed write failure does no harm because the miss showed that Redis lacked the key. */
  lemma FillCoherent(t: Tiers, latest: map<Key, Value>, k: Key, v: Value, w: Write, t': Tiers)
    requires Coherent(t, latest) && (t.useRedis ==> k !in t.redis) && Fill(t, k, v, w, t')
    ensures Coherent(t', latest[k := v])
  {
  }

  lemma FillMcpCoherent(cap: nat, t: Tiers, latest: map<Key, Value>, k: Key, v: Value, w: Write, t': Tiers)
    requires Coherent(t, latest) && (t.useRedis ==> k !in t.redis) && FillMcp(cap, t, k, v, w, t')
    ensures Coherent(t', latest[k := v])
  {
    if |v| <= cap {
      var m :| Mirror(t, k, v, w, t'.(mem := m)) && MemWrite(m, k, v, t'.mem);
      MirrorCoherent(t, latest, k, v, w, t'.(mem := m));
    }
  }

  lemma ReadThroughCoherent(cap: nat, mcp: bool, t: Tiers, latest: map<Key, Value>, k: Key, up: bool, fetched: Outcome,
                            w: Write, t': Tiers, answer: Outcome)
    requires Coherent(t, latest)
    requires exists r, a :: ReadThrough(cap, mcp, t, k, up, fetched, w, t', answer, r, a)
    ensures Coherent(t', if answer.Some? then latest[k := answer.value] else latest)
    ensures answer.Some? ==> answer == fetched || (k in latest && answer.value == latest[k])
  {
    var r, a :| ReadThrough(cap, mcp, t, k, up, fetched, w, t', answer, r, a);
    ReadCoherent(t, latest, k, up, r, a);
    if a.Some? {
      assert latest[k := answer.value] == latest;
    } else if fetched.Some? {
      if mcp {
        FillMcpCoherent(cap, r, latest, k, fetched.value, w, t');
      } else {
        FillCoherent(r, latest, k, fetched.value, w, t');
      }
    }
  }

  lemma StepCoherent(cap: nat, t: Tiers, latest: map<Key, Value>, op: Op, t': Tiers, answer: Outcome)
    requires Coherent(t, latest) && Step(cap, t, op, t', answer)
    ensures Coherent(t', Latest(cap, latest, op, answer))
    ensures op.Get? && answer.Some? ==> op.key in latest && answer.value == latest[op.key]
    ensures (op.GetOrSet? || op.GetOrSetMcp?) && answer.Some? ==>
              answer == op.fetched || (op.key in latest && answer.value == latest[op.key])
  {
    match op
    case Get(k, up) => ReadCoherent(t, latest, k, up, t', answer);
    case Set(k, v, w) => MirrorCoherent(t, latest, k, v, w, t');
    case SetMcp(k, v, w) =>
      if |v| <= cap {
        MirrorCoherent(t, latest, k, v, w, t');
      }
    case GetOrSet(k, up, fetched, w) => ReadThroughCoherent(cap, false, t, latest, k, up, fetched, w, t', answer);
    case GetOrSetMcp(k, up, fetched, w) => ReadThroughCoherent(cap, true, t, latest, k, up, fetched, w, t', answer);
    case Clear(_) =>
    case Expire(_) =>
  }

  lemma {:induction false} AlwaysCoherent(cap: nat, states: seq<Tiers>, ops: seq<Op>, answers: seq<Outcome>, i: nat)
    requires Run(cap, states, ops, answers) && i <= |ops|
    ensures Coherent(states[i], LatestAfter(cap, states[0].redis, ops[..i], answers[..i]))
  {
    if i == 0 {
    } else {
      AlwaysCoherent(cap, states, ops, answers, i - 1);
      assert ops[..i][..i - 1] == ops[..i - 1] && answers[..i][..i - 1] == answers[..i - 1];
      var latest := LatestAfter(cap, states[0].redis, ops[..i - 1], answers[..i - 1]);
      StepCoherent(cap, states[i - 1], latest, ops[i - 1], states[i], answers[i - 1]);
    }
  }

  /** Whatever Redis does, the tiers never disagree while both are in use, and every hit is the
      last value written under its key; a read-through that answers otherwise has fetched. */
  lemma TiersAgree(cap: nat, states: seq<Tiers>, ops: seq<Op>, answers: seq<Outcome>, i: nat)
    requires Run(cap, states, ops, answers) && i <= |ops|
    ensures var t := states[i];
            t.useRedis ==> forall k | k in t.mem && k in t.redis :: t.mem[k] == t.redis[k]
    ensures i < |ops| && ops[i].Get? && answers[i].Some? ==>
              var latest := LatestAfter(cap, states[0].redis, ops[..i], answers[..i]);
              ops[i].key in latest && answers[i].value == latest[ops[i].key]
    ensures i < |ops| && (ops[i].GetOrSet? || ops[i].GetOrSetMcp?) && answers[i].Some? ==>
              var latest := LatestAfter(cap, states[0].redis, ops[..i], answers[..i]);
              answers[i] == ops[i].fetched || (ops[i].key in latest && answers[i].value == latest[ops[i].key])
  {
    AlwaysCoherent(cap, states, ops, answers, i);
    if i < |ops| {
      var latest := LatestAfter(cap, states[0].redis, ops[..i], answers[..i]);
      StepCoherent(cap, states[i], latest, ops[i], states[i + 1], answers[i]);
    }
  }

  /** What either set has written to Redis is read back from it at once. */
  lemma ReadsOwnWrite(cap: nat, t: Tiers, k: Key, v: Value, mcp: bool, t1: Tiers, t2: Tiers, answer: Outcome)
    requires t.useRedis && (mcp ==> |v| <= cap)
    requires Step(cap, t, if mcp then SetMcp(k, v, Stored) else Set(k, v, Stored), t1, NoValue)
    requires Step(cap, t1, Get(k, true), t2, answer)
    ensures answer == Some(v) && t2 == t1
  {
  }

  /** So is what either read-through has fetched, if Redis took it. */
  lemma FetchedIsMirrored(cap: nat, t: Tiers, op: Op, k: Key, v: Value, t1: Tiers, a1: Outcome,
                          t2: Tiers, answer: Outcome)
    requires op == GetOrSet(k, true, Some(v), Stored) || (op == GetOrSetMcp(k, true, Some(v), Stored) && |v| <= cap)
    requires t.useRedis && k !in t.redis && k !in t.mem
    requires Step(cap, t, op, t1, a1) && Step(cap, t1, Get(k, true), t2, answer)
    ensures a1 == answer == Some(v) && t1.redis == t.redis[k := v] && t1.useRedis
  {
    if op.GetOrSetMcp? {
      var r, a :| ReadThrough(cap, true, t, k, true, Some(v), Stored, t1, a1, r, a);
      assert FillMcp(cap, r, k, v, Stored, t1);
      var m :| Mirror(r, k, v, Stored, t1.(mem := m)) && MemWrite(m, k, v, t1.mem);
    } else {
      var r, a :| ReadThrough(cap, false, t, k, true, Some(v), Stored, t1, a1, r, a);
      assert Fill(r, k, v, Stored, t1);
    }
  }

  /** Losing Redis at a read can turn that read's hit into a miss, never into another value. */
  lemma FailoverOnlyLoses(t: Tiers, latest: map<Key, Value>, k: Key, r: Tiers, a: Outcome, r': Tiers, a': Outcome)
    requires Coherent(t, latest) && Read(t, k, true, r, a) && Read(t, k, false, r', a')
    requires a.Some? && a'.Some?
    ensures a == a'
  {
  }

  /** Redis is given up once and for all. */
  lemma {:induction false} NeverReturnsToRedis(cap: nat, states: seq<Tiers>, ops: seq<Op>, answers: seq<Outcome>,
                                               i: nat, j: nat)
    requires Run(cap, states, ops, answers) && i <= j <= |ops| && states[j].useRedis
    ensures states[i].useRedis
    decreases j
  {
    if i == j {
    } else {
      assert Step(cap, states[j - 1], ops[j - 1], states[j], answers[j - 1]);
      NeverReturnsToRedis(cap, states, ops, answers, i, j - 1);
    }
  }

  // ---------- the size cap ----------

  predicate OverCap(cap: nat, m: map<Key, Value>, k: Key) {
    k in m && |m[k]| > cap
  }

  /** A value put in Redis through the MCP path is never over the cap: a key that no plain set
      or get_or_set of the run has written holds none, unless one was there before. */
  lemma {:induction false} CapHoldsInRedis(cap: nat, states: seq<Tiers>, ops: seq<Op>, answers: seq<Outcome>,
                                           i: nat, k: Key)
    requires Run(cap, states, ops, answers) && i <= |ops|
    requires !OverCap(cap, states[0].redis, k)
    requires forall j | 0 <= j < i && (ops[j].Set? || ops[j].GetOrSet?) :: ops[j].key != k
    ensures !OverCap(cap, states[i].redis, k)
  {
    if i == 0 {
    } else {
      CapHoldsInRedis(cap, states, ops, answers, i - 1, k);
      assert Step(cap, states[i - 1], ops[i - 1], states[i], answers[i - 1]);
    }
  }

  /** The operation was a get_or_set_mcp of the key that answered with a fetched oversize value. */
  predicate FetchesOversize(cap: nat, op: Op, answer: Outcome, k: Key) {
    op.GetOrSetMcp? && op.key == k && answer.Some? && answer == op.fetched && |answer.value| > cap
  }

  /** It does not hold for memory.  If neither tier holds an oversize value under the key, then
      after get_or_set_mcp memory does exactly if the value had to be fetched and is oversize;
      set_mcp never puts one there, and neither does any other operation on another key. */
  lemma OversizeKeptIff(cap: nat, t: Tiers, op: Op, t': Tiers, answer: Outcome, k: Key)
    requires Step(cap, t, op, t', answer) && !OverCap(cap, t.mem, k) && !OverCap(cap, t.redis, k)
    requires op.Set? || op.GetOrSet? ==> op.key != k
    ensures OverCap(cap, t'.mem, k) <==> FetchesOversize(cap, op, answer, k)
  {
    match op
    case GetOrSetMcp(j, up, fetched, w) =>
      var r, a :| ReadThrough(cap, true, t, j, up, fetched, w, t', answer, r, a);
      ReadThroughSize(cap, true, t, j, up, fetched, w, t', answer, r, a, k);
    case GetOrSet(j, up, fetched, w) =>
      var r, a :| ReadThrough(cap, false, t, j, up, fetched, w, t', answer, r, a);
      ReadThroughSize(cap, false, t, j, up, fetched, w, t', answer, r, a, k);
    case _ =>
  }

  lemma ReadThroughSize(cap: nat, mcp: bool, t: Tiers, j: Key, up: bool, fetched: Outcome, w: Write,
                        t': Tiers, answer: Outcome, r: Tiers, a: Outcome, k: Key)
    requires ReadThrough(cap, mcp, t, j, up, fetched, w, t', answer, r, a)
    requires !OverCap(cap, t.mem, k) && !OverCap(cap, t.redis, k) && (!mcp ==> j != k)
    ensures OverCap(cap, t'.mem, k) <==> j == k && answer.Some? && answer == fetched && |answer.value| > cap
  {
    if !a.Some? && fetched.Some? && mcp && |fetched.value| <= cap {
      var m :| Mirror(r, j, fetched.value, w, t'.(mem := m)) && MemWrite(m, j, fetched.value, t'.mem);
    }
  }

  /** Over runs, for a key that only the MCP path writes: memory holds an oversize value under it
      at some time exactly if some get_or_set_mcp of it had to fetch one. */
  lemma OversizeOverRuns(cap: nat, states: seq<Tiers>, ops: seq<Op>, answers: seq<Outcome>, n: nat, k: Key)
    requires Run(cap, states, ops, answers) && n <= |ops| && !OverCap(cap, states[0].redis, k)
    requires forall j | 0 <= j < n && (ops[j].Set? || ops[j].GetOrSet?) :: ops[j].key != k
    ensures (exists i | 0 <= i <= n :: OverCap(cap, states[i].mem, k)) <==>
              exists j | 0 <= j < n :: FetchesOversize(cap, ops[j], answers[j], k)
  {
    if i: nat :| i <= n && OverCap(cap, states[i].mem, k) {
      FirstFetch(cap, states, ops, answers, i, k);
    }
    if j: nat :| j < n && FetchesOversize(cap, ops[j], answers[j], k) {
      assert Step(cap, states[j], ops[j], states[j + 1], answers[j]);
      CapHoldsInRedis(cap, states, ops, answers, j, k);
      if !OverCap(cap, states[j].mem, k) {
        OversizeKeptIff(cap, states[j], ops[j], states[j + 1], answers[j], k);
      }
    }
  }

  lemma {:induction false} FirstFetch(cap: nat, states: seq<Tiers>, ops: seq<Op>, answers: seq<Outcome>, i: nat, k: Key)
    requires Run(cap, states, ops, answers) && i <= |ops| && !OverCap(cap, states[0].redis, k)
    requires forall j | 0 <= j < i && (ops[j].Set? || ops[j].GetOrSet?) :: ops[j].key != k
    requires OverCap(cap, states[i].mem, k)
    ensures exists j | 0 <= j < i :: FetchesOversize(cap, ops[j], answers[j], k)
  {
    if i == 0 {
      assert false;
    } else if OverCap(cap, states[i - 1].mem, k) {
      FirstFetch(cap, states, ops, answers, i - 1, k);
    } else {
      assert Step(cap, states[i - 1], ops[i - 1], states[i], answers[i - 1]);
      CapHoldsInRedis(cap, states, ops, answers, i - 1, k);
      OversizeKeptIff(cap, states[i - 1], ops[i - 1], states[i], answers[i - 1], k);
    }
  }

  /** It happens whenever both tiers lack the key. */
  lemma OversizeStaysInMemory(cap: nat, t: Tiers, k: Key, v: Value, w: Write, t': Tiers)
    requires |v| > cap && k !in t.mem && k !in t.redis
    requires Step(cap, t, GetOrSetMcp(k, true, Some(v), w), t', Some(v))
    ensures k in t'.mem && t'.mem[k] == v && k !in t'.redis
  {
    var r, a :| ReadThrough(cap, true, t, k, true, Some(v), w, t', Some(v), r, a);
  }

  // ---------- clear() ----------

  /** After clear() a key is gone exactly when Redis is unused, was flushed, or lacked the key:
      a failed flush is swallowed and the old value comes back. */
  lemma ClearForgetsIff(cap: nat, t: Tiers, flushed: bool, t1: Tiers, k: Key, t2: Tiers, answer: Outcome)
    requires Step(cap, t, Op.Clear(flushed), t1, NoValue) && Step(cap, t1, Get(k, true), t2, answer)
    ensures answer == NoValue <==> !t.useRedis || flushed || k !in t.redis
    ensures answer.Some? ==> answer.value == t.redis[k]
  {
  }
}
