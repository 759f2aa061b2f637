/** The single-flight protocol of `get_or_set`, one atomic step per stretch of code between
    suspension points.  Callers are numbered; a future is named after the caller that created
    it (each call creates at most one).

    As coded, a follower awaits the shared future inside `async with self.lock`.  The flag
    `early` selects the protocol in which it releases the lock first. */
module SingleFlight {

  type Key = string
  type Value = string

  /** What a call returns or raises; the source caches only values that are not None. */
  datatype Outcome = Some(value: Value) | NoValue | Raised(error: string)

  datatype Future = Pending | Resolved(outcome: Outcome)

  datatype Source = Hit | Led | Followed(leader: nat)

  /** Where a caller stands. */
  datatype Pc =
    | Start                        // about to look the key up
    | Missed                       // missed, about to take the lock and register
    | Fetching                     // leader, user coroutine running
    | Publishing(value: Value)     // leader, wants the lock to store the value
    | Retiring(outcome: Outcome)   // leader, future resolved, wants the lock to drop it
    | Waiting(leader: nat)         // follower awaiting the leader's future
    | Returned(outcome: Outcome, source: Source)

  /** The fields of the cache object that the protocol uses.  Expiry times are left to the
      bounded cache; here an entry may be missed or evicted at any time. */
  datatype Shared = Shared(store: map<Key, Value>, inflight: map<Key, nat>, futures: map<nat, Future>, lock: bool)

  /** `stored` remembers every value ever put into the store. */
  datatype Sys = Sys(sh: Shared, keys: seq<Key>, pcs: seq<Pc>, stored: set<(Key, Value)>)

  datatype Action =
    | Lookup(t: nat, hit: bool)
    | Register(t: nat)
    | Finish(t: nat, result: Outcome)
    | Publish(t: nat, evicted: set<Key>)
    | Retire(t: nat)
    | Wake(t: nat)
    | Clear

  // ---------- the shared part of each step ----------

  datatype Seat = Lead | Follow(leader: nat) | Ready(leader: nat, outcome: Outcome)

  function SeatOf(sh: Shared, key: Key): Seat {
    if key !in sh.inflight || sh.inflight[key] !in sh.futures then Lead
    else
      var l := sh.inflight[key];
      match sh.futures[l]
      case Pending => Follow(l)
      case Resolved(o) => Ready(l, o)
  }

  /** A miss leaves no entry behind: there was none, or it had expired and is deleted. */
  function AfterLookup(sh: Shared, key: Key, hit: bool): Shared {
    if hit then sh else sh.(store := sh.store - {key})
  }

  function AfterRegister(early: bool, sh: Shared, t: nat, key: Key): Shared {
    match SeatOf(sh, key)
    case Lead => sh.(inflight := sh.inflight[key := t], futures := sh.futures[t := Pending])
    case Follow(_) => sh.(lock := !early)
    case Ready(_, _) => sh
  }

  function AfterFinish(sh: Shared, t: nat, result: Outcome): Shared {
    if result.Some? then sh else sh.(futures := sh.futures[t := Resolved(result)])
  }

  function AfterPublish(sh: Shared, t: nat, key: Key, value: Value, evicted: set<Key>): Shared {
    sh.(store := (sh.store - evicted)[key := value], futures := sh.futures[t := Resolved(Some(value))])
  }

  function AfterWake(early: bool, sh: Shared): Shared {
    if early then sh else sh.(lock := false)
  }

  function AfterRetire(sh: Shared, key: Key): Shared {
    sh.(inflight := sh.inflight - {key})
  }

  function AfterClear(sh: Shared): Shared {
    sh.(store := map[], inflight := map[])
  }

  // ---------- the system ----------

  predicate Enabled(early: bool, s: Sys, a: Action) {
    if a.Clear? then !s.sh.lock
    else
      a.t < |s.pcs| == |s.keys| &&
      match a
      case Lookup(t, hit) => s.pcs[t].Start? && !s.sh.lock && (hit ==> s.keys[t] in s.sh.store)
      case Register(t) => s.pcs[t].Missed? && !s.sh.lock
      case Finish(t, _) => s.pcs[t].Fetching?
      case Publish(t, _) => s.pcs[t].Publishing? && !s.sh.lock
      case Retire(t) => s.pcs[t].Retiring? && !s.sh.lock
      case Wake(t) => s.pcs[t].Waiting? && s.pcs[t].leader in s.sh.futures && s.sh.futures[s.pcs[t].leader].Resolved?
  }

  function Next(early: bool, s: Sys, a: Action): Sys
    requires Enabled(early, s, a)
  {
    match a
    case Lookup(t, hit) =>
      Goto(s, t, if hit then Returned(Some(s.sh.store[s.keys[t]]), Hit) else Missed)
        .(sh := AfterLookup(s.sh, s.keys[t], hit))
    case Register(t) =>
      var pc := match SeatOf(s.sh, s.keys[t])
        case Lead => Fetching
        case Follow(l) => Waiting(l)
        case Ready(l, o) => Returned(o, Followed(l));
      Goto(s, t, pc).(sh := AfterRegister(early, s.sh, t, s.keys[t]))
    case Finish(t, result) =>
      Goto(s, t, if result.Some? then Publishing(result.value) else Retiring(result))
        .(sh := AfterFinish(s.sh, t, result))
    case Publish(t, evicted) =>
      var v := s.pcs[t].value;
      Goto(s, t, Retiring(Some(v)))
        .(sh := AfterPublish(s.sh, t, s.keys[t], v, evicted), stored := s.stored + {(s.keys[t], v)})
    case Retire(t) =>
      Goto(s, t, Returned(s.pcs[t].outcome, Led)).(sh := AfterRetire(s.sh, s.keys[t]))
    case Wake(t) =>
      var l := s.pcs[t].leader;
      Goto(s, t, Returned(s.sh.futures[l].outcome, Followed(l))).(sh := AfterWake(early, s.sh))
    case Clear => s.(sh := AfterClear(s.sh))
  }

  function Goto(s: Sys, t: nat, pc: Pc): Sys
    requires t < |s.pcs|
  {
    s.(pcs := s.pcs[t := pc])
  }

  function Init(keys: seq<Key>): Sys {
    Sys(Shared(map[], map[], map[], false), keys, seq(|keys|, _ => Start), {})
  }

  ghost predicate Valid(early: bool, s: Sys, run: seq<Action>)
    decreases |run|
  {
    run == [] || (Enabled(early, s, run[0]) && Valid(early, Next(early, s, run[0]), run[1..]))
  }

  ghost function After(early: bool, s: Sys, run: seq<Action>): Sys
    requires Valid(early, s, run)
    decreases |run|
  {
    if run == [] then s else After(early, Next(early, s, run[0]), run[1..])
  }

  ghost predicate NoClear(run: seq<Action>) {
    forall i | 0 <= i < |run| :: !run[i].Clear?
  }

  // ---------- safety ----------

  predicate Leading(pc: Pc) {
    pc.Fetching? || pc.Publishing? || pc.Retiring?
  }

  /** The future of caller l has the state its program counter says. */
  ghost predicate FutureFits(s: Sys, l: nat)
    requires l < |s.pcs|
  {
    match s.pcs[l]
    case Fetching => l in s.sh.futures && s.sh.futures[l] == Pending
    case Publishing(_) => l in s.sh.futures && s.sh.futures[l] == Pending
    case Retiring(o) => l in s.sh.futures && s.sh.futures[l] == Resolved(o)
    case Returned(o, Led) => l in s.sh.futures && s.sh.futures[l] == Resolved(o)
    case _ => l !in s.sh.futures
  }

  /** Caller t follows caller l on the same key. */
  ghost predicate Follows(s: Sys, t: nat, l: nat)
    requires t < |s.pcs| == |s.keys|
  {
    l < |s.pcs| && l in s.sh.futures && s.keys[l] == s.keys[t]
  }

  /** What caller t waits for or has returned is accounted for. */
  ghost predicate CallerFits(s: Sys, t: nat)
    requires t < |s.pcs| == |s.keys|
  {
    match s.pcs[t]
    case Waiting(l) => Follows(s, t, l)
    case Returned(o, Followed(l)) => Follows(s, t, l) && s.sh.futures[l] == Resolved(o)
    case Returned(o, Hit) => o.Some? && (s.keys[t], o.value) in s.stored
    case _ => true
  }

  /** The in-flight table lists exactly the leaders. */
  ghost predicate LeaderInv(s: Sys) {
    && |s.pcs| == |s.keys|
    && (forall k | k in s.sh.inflight ::
          var l := s.sh.inflight[k]; l < |s.pcs| && s.keys[l] == k && Leading(s.pcs[l]))
    && (forall t | 0 <= t < |s.pcs| && Leading(s.pcs[t]) ::
          s.keys[t] in s.sh.inflight && s.sh.inflight[s.keys[t]] == t)
  }

  ghost predicate FitInv(s: Sys) {
    && |s.pcs| == |s.keys|
    && (forall t | 0 <= t < |s.pcs| :: FutureFits(s, t))
    && (forall t | 0 <= t < |s.pcs| :: CallerFits(s, t))
  }

  /** A value has been stored before its future, or the store, can show it. */
  ghost predicate StoreInv(s: Sys) {
    && |s.pcs| == |s.keys|
    && (forall l | 0 <= l < |s.pcs| && l in s.sh.futures &&
                   s.sh.futures[l].Resolved? && s.sh.futures[l].outcome.Some? ::
          (s.keys[l], s.sh.futures[l].outcome.value) in s.stored)
    && (forall k | k in s.sh.store :: (k, s.sh.store[k]) in s.stored)
  }

  /** As coded, the lock is held between steps only by a waiting follower, by one at most. */
  ghost predicate LockInv(early: bool, s: Sys) {
    && (early ==> !s.sh.lock)
    && (!early ==>
          && (forall t, u | 0 <= t < u < |s.pcs| :: !(s.pcs[t].Waiting? && s.pcs[u].Waiting?))
          && (s.sh.lock <==> exists t :: 0 <= t < |s.pcs| && s.pcs[t].Waiting?))
  }

  ghost predicate Inv(early: bool, s: Sys) {
    LeaderInv(s) && FitInv(s) && StoreInv(s) && LockInv(early, s)
  }

  lemma InitInv(early: bool, keys: seq<Key>)
    ensures Inv(early, Init(keys))
  {
  }

  /** A listed leader has a future, so registering leads only on a key nobody leads. */
  lemma SeatFree(s: Sys, t: nat)
    requires LeaderInv(s) && FitInv(s) && t < |s.pcs| && SeatOf(s.sh, s.keys[t]).Lead?
    ensures s.keys[t] !in s.sh.inflight
  {
    forall k | k in s.sh.inflight ensures s.sh.inflight[k] in s.sh.futures {
      assert FutureFits(s, s.sh.inflight[k]);
    }
  }

  lemma RegisterKeepsLeaders(early: bool, s: Sys, t: nat)
    requires LeaderInv(s) && FitInv(s) && Enabled(early, s, Register(t))
    ensures LeaderInv(Next(early, s, Register(t)))
  {
    if SeatOf(s.sh, s.keys[t]).Lead? {
      SeatFree(s, t);
    }
  }

  lemma StepKeepsLeaders(early: bool, s: Sys, a: Action)
    requires LeaderInv(s) && FitInv(s) && Enabled(early, s, a) && !a.Clear?
    ensures LeaderInv(Next(early, s, a))
  {
    if a.Register? {
      RegisterKeepsLeaders(early, s, a.t);
    } else {
      var n := Next(early, s, a);
      assert forall u | 0 <= u < |s.pcs| && u != a.t :: n.pcs[u] == s.pcs[u];
      assert Leading(n.pcs[a.t]) <==> Leading(s.pcs[a.t]) && !a.Retire?;
    }
  }

  lemma StepKeepsFutures(early: bool, s: Sys, a: Action)
    requires LeaderInv(s) && FitInv(s) && Enabled(early, s, a) && !a.Clear?
    ensures forall u | 0 <= u < |s.pcs| :: FutureFits(Next(early, s, a), u)
  {
    var n := Next(early, s, a);
    assert FutureFits(s, a.t);
    forall u | 0 <= u < |s.pcs| ensures FutureFits(n, u) {
      assert FutureFits(s, u);
    }
  }

  lemma StepKeepsCallers(early: bool, s: Sys, a: Action)
    requires LeaderInv(s) && FitInv(s) && StoreInv(s) && Enabled(early, s, a) && !a.Clear?
    ensures forall u | 0 <= u < |s.pcs| :: CallerFits(Next(early, s, a), u)
  {
    var n := Next(early, s, a);
    assert FutureFits(s, a.t) && CallerFits(s, a.t);
    forall u | 0 <= u < |s.pcs| ensures CallerFits(n, u) {
      assert CallerFits(s, u);
    }
  }

  lemma StepKeepsFits(early: bool, s: Sys, a: Action)
    requires LeaderInv(s) && FitInv(s) && StoreInv(s) && Enabled(early, s, a) && !a.Clear?
    ensures FitInv(Next(early, s, a))
  {
    StepKeepsFutures(early, s, a);
    StepKeepsCallers(early, s, a);
  }

  lemma StepKeepsStore(early: bool, s: Sys, a: Action)
    requires FitInv(s) && StoreInv(s) && Enabled(early, s, a) && !a.Clear?
    ensures StoreInv(Next(early, s, a))
  {
    assert FutureFits(s, a.t);
  }

  lemma StepKeepsLock(early: bool, s: Sys, a: Action)
    requires LockInv(early, s) && Enabled(early, s, a) && !a.Clear?
    ensures LockInv(early, Next(early, s, a))
  {
    var n := Next(early, s, a);
    assert forall u | 0 <= u < |s.pcs| && u != a.t :: n.pcs[u] == s.pcs[u];
    assert n.pcs[a.t].Waiting? ==> a.Register?;
  }

  lemma StepKeepsInv(early: bool, s: Sys, a: Action)
    requires Inv(early, s) && Enabled(early, s, a) && !a.Clear?
    ensures Inv(early, Next(early, s, a))
  {
    StepKeepsLeaders(early, s, a);
    StepKeepsFits(early, s, a);
    StepKeepsStore(early, s, a);
    StepKeepsLock(early, s, a);
  }

  lemma {:induction false} RunKeepsInv(early: bool, s: Sys, run: seq<Action>)
    requires Inv(early, s) && Valid(early, s, run) && NoClear(run)
    ensures Inv(early, After(early, s, run))
    decreases |run|
  {
    if run == [] {
    } else {
      StepKeepsInv(early, s, run[0]);
      RunKeepsInv(early, Next(early, s, run[0]), run[1..]);
    }
  }
}
