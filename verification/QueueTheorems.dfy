/** Conservation, concurrency, finality and progress of the background queue over whole runs. */
module QueueTheorems {
  import opened QueueModel

  /** Workers holding a permit of semaphore e. */
  function Holders(ws: seq<Worker>, e: nat): nat {
    if ws == [] then 0 else (if ws[0].pc == Handling(e) then 1 else 0) + Holders(ws[1..], e)
  }

  lemma {:induction false} HoldersUpdate(ws: seq<Worker>, w: nat, x: Worker, e: nat)
    requires w < |ws|
    ensures Holders(ws[w := x], e)
         == Holders(ws, e) - (if ws[w].pc == Handling(e) then 1 else 0) + (if x.pc == Handling(e) then 1 else 0)
  {
    if w > 0 {
      HoldersUpdate(ws[1..], w - 1, x, e);
      assert ws[w := x][1..] == ws[1..][w - 1 := x];
    } else {
      assert ws[w := x][1..] == ws[1..];
    }
  }

  lemma {:induction false} HoldersAppend(ws: seq<Worker>, x: Worker, e: nat)
    ensures Holders(ws + [x], e) == Holders(ws, e) + (if x.pc == Handling(e) then 1 else 0)
  {
    if ws == [] {
    } else {
      HoldersAppend(ws[1..], x, e);
      assert (ws + [x])[1..] == ws[1..] + [x];
    }
  }

  lemma {:induction false} HoldersSamePcs(ws: seq<Worker>, vs: seq<Worker>, e: nat)
    requires |ws| == |vs| && forall i | 0 <= i < |ws| :: ws[i].pc == vs[i].pc
    ensures Holders(ws, e) == Holders(vs, e)
  {
    if ws == [] {
    } else {
      HoldersSamePcs(ws[1..], vs[1..], e);
    }
  }

  // ---------- the invariant ----------

  /** Strict FIFO: worker number i runs task i, and the queue holds the rest in order. */
  ghost predicate FifoInv(q: Queue) {
    && |q.tasks| == |q.workers| + |q.fifo|
    && (forall i | 0 <= i < |q.workers| :: q.workers[i].task == i)
    && (forall i | 0 <= i < |q.fifo| :: q.fifo[i] == |q.workers| + i)
  }

  /** A status fits the stage its task has reached. */
  ghost predicate StageFits(s: Status, w: Worker) {
    match w.pc
    case Spawned => s.Pending? || s.Cancelled?
    case Waiting(_) => s.Pending? || (s.Cancelled? && w.cancelled)
    case Handling(_) => s.Running? || (s.Cancelled? && w.cancelled)
    case Skipped => s.Cancelled?
    case Exited => Terminal(s) || (s.Pending? && w.cancelled)
  }

  ghost predicate StageInv(q: Queue) {
    && FifoInv(q)
    && (forall i | 0 <= i < |q.workers| :: StageFits(q.tasks[i].status, q.workers[i]))
    && (forall i | |q.workers| <= i < |q.tasks| :: q.tasks[i].status.Pending? || q.tasks[i].status.Cancelled?)
  }

  /** The running table names uncancelled workers, and all live ones among them. */
  ghost predicate TableInv(q: Queue) {
    && FifoInv(q)
    && (forall id | id in q.running ::
          id < |q.workers| && q.running[id] == id && !q.workers[id].cancelled &&
          (Live(q.workers[id].pc) || q.workers[id].pc.Skipped?))
    && (forall i | 0 <= i < |q.workers| && Live(q.workers[i].pc) && !q.workers[i].cancelled :: i in q.running)
  }

  ghost predicate PermitInv(max: nat, q: Queue) {
    && (forall i | 0 <= i < |q.workers| && (q.workers[i].pc.Waiting? || q.workers[i].pc.Handling?) ::
          q.workers[i].pc.epoch < |q.permits|)
    && (forall e | 0 <= e < |q.permits| :: q.permits[e] >= 0 && q.permits[e] + Holders(q.workers, e) == max)
    && (forall e: nat | e >= |q.permits| :: Holders(q.workers, e) == 0)
    && (q.workers != [] || q.isRunning ==> |q.permits| > 0)
  }

  /** Each handler call belongs to a task of its own that has reached its handler. */
  ghost predicate InvokedInv(q: Queue) {
    && |q.workers| <= |q.tasks|
    && (forall i | 0 <= i < |q.invoked| ::
          q.invoked[i] < |q.workers| && (q.workers[q.invoked[i]].pc.Handling? || q.workers[q.invoked[i]].pc.Exited?))
    && (forall i, j | 0 <= i < j < |q.invoked| :: q.invoked[i] != q.invoked[j])
    && (forall w | 0 <= w < |q.workers| && w < |q.tasks| &&
          (q.workers[w].pc.Handling? || q.tasks[w].status.Completed? || q.tasks[w].status.Failed?) :: w in q.invoked)
  }

  /** Still queued, or dispatched to a worker that is going to begin. */
  predicate NotBegun(q: Queue, i: nat) {
    i >= |q.workers| || (q.workers[i].pc.Spawned? && !q.workers[i].cancelled)
  }

  /** Workers that skip are those of tasks cancelled while queued, and no others. */
  ghost predicate SkipInv(q: Queue) {
    && (forall id | id in q.queuedCancels ::
          id < |q.tasks| && if id >= |q.workers| || q.workers[id].pc.Spawned? then q.tasks[id].status.Cancelled?
                            else q.workers[id].pc.Skipped? || q.workers[id].cancelled)
    && (forall i | 0 <= i < |q.tasks| && q.tasks[i].status.Cancelled? && NotBegun(q, i) :: i in q.queuedCancels)
    && (forall i | 0 <= i < |q.workers| && q.workers[i].pc.Skipped? :: i in q.queuedCancels)
  }

  /** Since stop() last emptied the running table, skipped workers have stayed listed. */
  ghost predicate ClearedInv(q: Queue) {
    && q.cleared <= |q.workers| && (forall id | id in q.running :: q.cleared <= id)
    && (forall i | q.cleared <= i < |q.workers| && q.workers[i].pc.Skipped? :: i in q.running)
    && (forall id | id in q.queuedCancels && q.cleared <= id < |q.workers| :: !q.workers[id].cancelled)
  }

  ghost predicate Inv(max: nat, q: Queue) {
    StageInv(q) && TableInv(q) && PermitInv(max, q) && InvokedInv(q) && SkipInv(q) && ClearedInv(q)
  }

  /** A queued id is in the FIFO, a dispatched one is not. */
  lemma QueuedIff(q: Queue, id: nat)
    requires FifoInv(q) && id < |q.tasks|
    ensures id in q.fifo <==> id >= |q.workers|
  {
    if id >= |q.workers| {
      assert q.fifo[id - |q.workers|] == id;
    }
  }

  predicate WorkerStep(a: Action) {
    a.Begin? || a.Acquire? || a.End? || a.Deliver?
  }

  /** A worker's step touches that worker, its record and nothing else of either kind. */
  lemma WorkerStepIsLocal(max: nat, propagate: bool, q: Queue, a: Action)
    requires FifoInv(q) && WorkerStep(a) && Enabled(propagate, q, a)
    ensures var n := Next(max, propagate, q, a);
            && n.fifo == q.fifo && |n.tasks| == |q.tasks|
            && n.workers == q.workers[a.w := q.workers[a.w].(pc := n.workers[a.w].pc)]
            && (forall i | 0 <= i < |q.tasks| && i != a.w :: n.tasks[i] == q.tasks[i])
  {
  }

  lemma WorkerStepKeepsStage(max: nat, propagate: bool, q: Queue, a: Action)
    requires StageInv(q) && WorkerStep(a) && Enabled(propagate, q, a)
    ensures StageInv(Next(max, propagate, q, a))
  {
    WorkerStepIsLocal(max, propagate, q, a);
    assert StageFits(q.tasks[a.w].status, q.workers[a.w]);
  }

  lemma CancelKeepsStage(q: Queue, id: nat, user: string)
    requires StageInv(q) && TableInv(q)
    ensures StageInv(AfterCancel(q, id, user))
  {
    if Cancellable(q, id, user) && id < |q.workers| {
      assert StageFits(q.tasks[id].status, q.workers[id]);
    }
  }

  lemma StopKeepsStage(max: nat, propagate: bool, q: Queue)
    requires StageInv(q) && q.stopping > 0
    ensures StageInv(Next(max, propagate, q, StopEnd))
  {
  }

  lemma DispatchKeepsStage(max: nat, propagate: bool, q: Queue)
    requires StageInv(q) && Enabled(propagate, q, Dispatch)
    ensures StageInv(Next(max, propagate, q, Dispatch))
  {
  }

  lemma StepKeepsStage(max: nat, propagate: bool, q: Queue, a: Action)
    requires StageInv(q) && TableInv(q) && Enabled(propagate, q, a)
    ensures StageInv(Next(max, propagate, q, a))
  {
    match a
    case Cancel(id, user) => CancelKeepsStage(q, id, user);
    case StopEnd => StopKeepsStage(max, propagate, q);
    case Dispatch => DispatchKeepsStage(max, propagate, q);
    case Submit(_) =>
    case Start =>
    case StopBegin =>
    case _ => WorkerStepKeepsStage(max, propagate, q, a);
  }

  lemma WorkerStepKeepsTable(max: nat, propagate: bool, q: Queue, a: Action)
    requires FifoInv(q) && TableInv(q) && WorkerStep(a) && Enabled(propagate, q, a)
    ensures TableInv(Next(max, propagate, q, a))
  {
    WorkerStepIsLocal(max, propagate, q, a);
  }

  lemma StopKeepsTable(max: nat, propagate: bool, q: Queue)
    requires TableInv(q) && q.stopping > 0
    ensures TableInv(Next(max, propagate, q, StopEnd))
  {
    forall i | 0 <= i < |q.workers| && Live(q.workers[i].pc) ensures CancelListed(q)[i].cancelled {
      if !q.workers[i].cancelled {
        assert i in q.running && q.running[i] == i;
      }
    }
  }

  lemma CancelKeepsTable(q: Queue, id: nat, user: string)
    requires TableInv(q)
    ensures TableInv(AfterCancel(q, id, user))
  {
  }

  lemma DispatchKeepsTable(max: nat, propagate: bool, q: Queue)
    requires TableInv(q) && Enabled(propagate, q, Dispatch)
    ensures TableInv(Next(max, propagate, q, Dispatch))
  {
  }

  lemma StepKeepsTable(max: nat, propagate: bool, q: Queue, a: Action)
    requires TableInv(q) && Enabled(propagate, q, a)
    ensures TableInv(Next(max, propagate, q, a))
  {
    match a
    case Cancel(id, user) => CancelKeepsTable(q, id, user);
    case StopEnd => StopKeepsTable(max, propagate, q);
    case Dispatch => DispatchKeepsTable(max, propagate, q);
    case Submit(_) =>
    case Start =>
    case StopBegin =>
    case _ => WorkerStepKeepsTable(max, propagate, q, a);
  }

  /** Holders change by one exactly at the semaphore of the worker that acquires or ends. */
  lemma HoldersStep(max: nat, propagate: bool, q: Queue, a: Action, e: nat)
    requires FifoInv(q) && Enabled(propagate, q, a)
    ensures Holders(Next(max, propagate, q, a).workers, e) == Holders(q.workers, e) +
              (if !(a.Acquire? || a.End?) || e != q.workers[a.w].pc.epoch then 0 else if a.Acquire? then 1 else -1)
  {
    var n := Next(max, propagate, q, a);
    if WorkerStep(a) {
      WorkerStepIsLocal(max, propagate, q, a);
      HoldersUpdate(q.workers, a.w, n.workers[a.w], e);
    } else if a.Dispatch? {
      HoldersAppend(q.workers, n.workers[|q.workers|], e);
    } else {
      HoldersSamePcs(q.workers, n.workers, e);
    }
  }

  lemma WorkerStepKeepsPermits(max: nat, propagate: bool, q: Queue, a: Action)
    requires FifoInv(q) && PermitInv(max, q) && WorkerStep(a) && Enabled(propagate, q, a)
    ensures PermitInv(max, Next(max, propagate, q, a))
  {
    forall e: nat { HoldersStep(max, propagate, q, a, e); }
    WorkerStepIsLocal(max, propagate, q, a);
  }

  /** What the other steps do to semaphores and program counters. */
  lemma OtherStepFacts(max: nat, propagate: bool, q: Queue, a: Action)
    requires !WorkerStep(a) && Enabled(propagate, q, a)
    ensures var n := Next(max, propagate, q, a);
            && (n.permits == q.permits || (a.Start? && n.permits == q.permits + [max]))
            && (n.isRunning ==> q.isRunning || n.permits != q.permits)
            && |q.workers| <= |n.workers| && (|q.workers| < |n.workers| ==> q.isRunning)
            && (forall i | 0 <= i < |q.workers| :: n.workers[i].pc == q.workers[i].pc)
            && (forall i | |q.workers| <= i < |n.workers| :: n.workers[i].pc.Spawned?)
  {
  }

  lemma OtherStepKeepsPermits(max: nat, propagate: bool, q: Queue, a: Action)
    requires FifoInv(q) && PermitInv(max, q) && !WorkerStep(a) && Enabled(propagate, q, a)
    ensures PermitInv(max, Next(max, propagate, q, a))
  {
    hide Next, Enabled, FifoInv, Holders;
    forall e: nat { HoldersStep(max, propagate, q, a, e); }
    OtherStepFacts(max, propagate, q, a);
  }

  lemma StepKeepsPermits(max: nat, propagate: bool, q: Queue, a: Action)
    requires FifoInv(q) && PermitInv(max, q) && Enabled(propagate, q, a)
    ensures PermitInv(max, Next(max, propagate, q, a))
  {
    if WorkerStep(a) {
      WorkerStepKeepsPermits(max, propagate, q, a);
    } else {
      OtherStepKeepsPermits(max, propagate, q, a);
    }
  }

  lemma AcquireKeepsInvoked(max: nat, propagate: bool, q: Queue, w: nat)
    requires StageInv(q) && InvokedInv(q) && Enabled(propagate, q, Acquire(w))
    ensures InvokedInv(Next(max, propagate, q, Acquire(w)))
  {
    WorkerStepIsLocal(max, propagate, q, Acquire(w));
    var n := Next(max, propagate, q, Acquire(w));
    assert n.invoked == q.invoked + [w];
    assert forall v | v in q.invoked :: v in n.invoked;
  }

  lemma WorkerStepKeepsInvoked(max: nat, propagate: bool, q: Queue, a: Action)
    requires StageInv(q) && InvokedInv(q) && WorkerStep(a) && Enabled(propagate, q, a)
    ensures InvokedInv(Next(max, propagate, q, a))
  {
    if a.Acquire? {
      AcquireKeepsInvoked(max, propagate, q, a.w);
    } else {
      WorkerStepIsLocal(max, propagate, q, a);
      assert StageFits(q.tasks[a.w].status, q.workers[a.w]);
    }
  }

  lemma CancelKeepsInvoked(q: Queue, id: nat, user: string)
    requires FifoInv(q) && TableInv(q) && InvokedInv(q)
    ensures InvokedInv(AfterCancel(q, id, user))
  {
  }

  lemma StopKeepsInvoked(max: nat, propagate: bool, q: Queue)
    requires FifoInv(q) && InvokedInv(q) && q.stopping > 0
    ensures InvokedInv(Next(max, propagate, q, StopEnd))
  {
  }

  lemma DispatchKeepsInvoked(max: nat, propagate: bool, q: Queue)
    requires StageInv(q) && InvokedInv(q) && Enabled(propagate, q, Dispatch)
    ensures InvokedInv(Next(max, propagate, q, Dispatch))
  {
    assert q.tasks[|q.workers|].status.Pending? || q.tasks[|q.workers|].status.Cancelled?;
  }

  lemma StepKeepsInvoked(max: nat, propagate: bool, q: Queue, a: Action)
    requires StageInv(q) && TableInv(q) && InvokedInv(q) && Enabled(propagate, q, a)
    ensures InvokedInv(Next(max, propagate, q, a))
  {
    match a
    case Cancel(id, user) => CancelKeepsInvoked(q, id, user);
    case StopEnd => StopKeepsInvoked(max, propagate, q);
    case Dispatch => DispatchKeepsInvoked(max, propagate, q);
    case Submit(_) =>
    case Start =>
    case StopBegin =>
    case _ => WorkerStepKeepsInvoked(max, propagate, q, a);
  }

  lemma WorkerStepKeepsSkips(max: nat, propagate: bool, q: Queue, a: Action)
    requires StageInv(q) && SkipInv(q) && WorkerStep(a) && Enabled(propagate, q, a)
    ensures SkipInv(Next(max, propagate, q, a))
  {
    WorkerStepIsLocal(max, propagate, q, a);
    assert StageFits(q.tasks[a.w].status, q.workers[a.w]);
  }

  lemma CancelKeepsSkips(q: Queue, id: nat, user: string)
    requires FifoInv(q) && TableInv(q) && SkipInv(q)
    ensures SkipInv(AfterCancel(q, id, user))
  {
    if id < |q.tasks| {
      QueuedIff(q, id);
    }
  }

  lemma StopKeepsSkips(max: nat, propagate: bool, q: Queue)
    requires FifoInv(q) && SkipInv(q) && q.stopping > 0
    ensures SkipInv(Next(max, propagate, q, StopEnd))
  {
  }

  lemma DispatchKeepsSkips(max: nat, propagate: bool, q: Queue)
    requires FifoInv(q) && SkipInv(q) && Enabled(propagate, q, Dispatch)
    ensures SkipInv(Next(max, propagate, q, Dispatch))
  {
  }

  lemma StepKeepsSkips(max: nat, propagate: bool, q: Queue, a: Action)
    requires StageInv(q) && TableInv(q) && SkipInv(q) && Enabled(propagate, q, a)
    ensures SkipInv(Next(max, propagate, q, a))
  {
    match a
    case Cancel(id, user) => CancelKeepsSkips(q, id, user);
    case StopEnd => StopKeepsSkips(max, propagate, q);
    case Dispatch => DispatchKeepsSkips(max, propagate, q);
    case Submit(_) =>
    case Start =>
    case StopBegin =>
    case _ => WorkerStepKeepsSkips(max, propagate, q, a);
  }

  lemma WorkerStepKeepsCleared(max: nat, propagate: bool, q: Queue, a: Action)
    requires StageInv(q) && TableInv(q) && ClearedInv(q) && WorkerStep(a) && Enabled(propagate, q, a)
    ensures ClearedInv(Next(max, propagate, q, a))
  {
    WorkerStepIsLocal(max, propagate, q, a);
    assert StageFits(q.tasks[a.w].status, q.workers[a.w]);
  }

  lemma CancelKeepsCleared(q: Queue, id: nat, user: string)
    requires StageInv(q) && TableInv(q) && SkipInv(q) && ClearedInv(q)
    ensures ClearedInv(AfterCancel(q, id, user))
  {
    if Cancellable(q, id, user) {
      QueuedIff(q, id);
      if id < |q.workers| {
        assert StageFits(q.tasks[id].status, q.workers[id]);
      }
    }
  }

  lemma DispatchKeepsCleared(max: nat, propagate: bool, q: Queue)
    requires FifoInv(q) && ClearedInv(q) && Enabled(propagate, q, Dispatch)
    ensures ClearedInv(Next(max, propagate, q, Dispatch))
  {
  }

  lemma StepKeepsCleared(max: nat, propagate: bool, q: Queue, a: Action)
    requires StageInv(q) && TableInv(q) && SkipInv(q) && ClearedInv(q) && Enabled(propagate, q, a)
    ensures ClearedInv(Next(max, propagate, q, a))
  {
    match a
    case Cancel(id, user) => CancelKeepsCleared(q, id, user);
    case Dispatch => DispatchKeepsCleared(max, propagate, q);
    case StopEnd =>
    case Submit(_) =>
    case Start =>
    case StopBegin =>
    case _ => WorkerStepKeepsCleared(max, propagate, q, a);
  }

  lemma StepKeepsInv(max: nat, propagate: bool, q: Queue, a: Action)
    requires Inv(max, q) && Enabled(propagate, q, a)
    ensures Inv(max, Next(max, propagate, q, a))
  {
    StepKeepsStage(max, propagate, q, a);
    StepKeepsTable(max, propagate, q, a);
    StepKeepsPermits(max, propagate, q, a);
    StepKeepsInvoked(max, propagate, q, a);
    StepKeepsSkips(max, propagate, q, a);
    StepKeepsCleared(max, propagate, q, a);
  }

  lemma {:induction false} RunKeepsInv(max: nat, propagate: bool, q: Queue, run: seq<Action>)
    requires Inv(max, q) && Valid(max, propagate, q, run)
    ensures Inv(max, After(max, propagate, q, run))
    decreases |run|
  {
    if run == [] {
    } else {
      StepKeepsInv(max, propagate, q, run[0]);
      RunKeepsInv(max, propagate, Next(max, propagate, q, run[0]), run[1..]);
    }
  }

  lemma Reached(max: nat, propagate: bool, run: seq<Action>)
    requires Valid(max, propagate, EMPTY, run)
    ensures Inv(max, After(max, propagate, EMPTY, run))
  {
    EmptyInv(max);
    RunKeepsInv(max, propagate, EMPTY, run);
  }

  // ---------- every run ----------

  /** Starting, stopping and cancelling at will: workers are made in submission order, a task's
      handler is called at most once, and exactly once if its record completed or failed, and
      permits and their holders always add up. */
  lemma OrderAndPermits(max: nat, propagate: bool, run: seq<Action>)
    requires Valid(max, propagate, EMPTY, run)
    ensures var q := After(max, propagate, EMPTY, run);
            && (forall w | 0 <= w < |q.workers| :: q.workers[w].task == w)
            && (forall i, j | 0 <= i < j < |q.invoked| :: q.invoked[i] != q.invoked[j])
            && (forall id | 0 <= id < |q.tasks| && (q.tasks[id].status.Completed? || q.tasks[id].status.Failed?) ::
                  id in q.invoked)
            && (forall e | 0 <= e < |q.permits| :: Holders(q.workers, e) == max - q.permits[e] <= max)
            && (forall id | 0 <= id < |q.tasks| && q.tasks[id].status.Running? ::
                  id < |q.workers| && q.workers[id].pc.Handling?)
  {
    hide Next;
    Reached(max, propagate, run);
    var q := After(max, propagate, EMPTY, run);
    forall id | 0 <= id < |q.workers| && q.tasks[id].status.Running? ensures q.workers[id].pc.Handling? {
      assert StageFits(q.tasks[id].status, q.workers[id]);
    }
  }

  /** Records that read RUNNING among the first k. */
  function RunningCount(tasks: seq<Record>, k: nat): nat
    requires k <= |tasks|
  {
    if k == 0 then 0 else RunningCount(tasks, k - 1) + if tasks[k - 1].status.Running? then 1 else 0
  }

  lemma {:induction false} RunningHold(q: Queue, k: nat)
    requires |q.workers| <= |q.tasks| && k <= |q.workers|
    requires forall id | 0 <= id < |q.workers| && q.tasks[id].status.Running? :: q.workers[id].pc == Handling(0)
    ensures RunningCount(q.tasks, k) <= Holders(q.workers[..k], 0)
  {
    if k == 0 {
    } else {
      RunningHold(q, k - 1);
      assert q.workers[..k] == q.workers[..k - 1] + [q.workers[k - 1]];
      HoldersAppend(q.workers[..k - 1], q.workers[k - 1], 0);
    }
  }

  lemma {:induction false} QueuedDoNotRun(q: Queue, k: nat)
    requires |q.workers| <= k <= |q.tasks|
    requires forall id | |q.workers| <= id < |q.tasks| :: !q.tasks[id].status.Running?
    ensures RunningCount(q.tasks, k) == RunningCount(q.tasks, |q.workers|)
  {
    if k == |q.workers| {
    } else {
      QueuedDoNotRun(q, k - 1);
    }
  }

  /** Within one start, no more than max records read RUNNING at any time. */
  lemma RunningIsBounded(max: nat, propagate: bool, run: seq<Action>)
    requires Valid(max, propagate, EMPTY, run) && |After(max, propagate, EMPTY, run).permits| <= 1
    ensures var q := After(max, propagate, EMPTY, run); RunningCount(q.tasks, |q.tasks|) <= max
  {
    Reached(max, propagate, run);
    OrderAndPermits(max, propagate, run);
    var q := After(max, propagate, EMPTY, run);
    forall id | 0 <= id < |q.workers| && q.tasks[id].status.Running? ensures q.workers[id].pc == Handling(0) {
      assert q.workers[id].pc.epoch == 0;
    }
    RunningHold(q, |q.workers|);
    assert q.workers[..|q.workers|] == q.workers;
    QueuedDoNotRun(q, |q.tasks|);
    if |q.permits| == 0 {
      assert Holders(q.workers, 0) == 0;
    } else {
      assert Holders(q.workers, 0) == max - q.permits[0];
    }
  }

  /** A final status changes only when a handler swallows a requested cancellation and ends
      otherwise; with handlers that let it through, final is final in every run. */
  lemma FinalUnlessSwallowed(max: nat, propagate: bool, q: Queue, a: Action, id: nat)
    requires StageInv(q) && Enabled(propagate, q, a) && id < |q.tasks| && Terminal(q.tasks[id].status)
    ensures Next(max, propagate, q, a).tasks[id] != q.tasks[id] <==>
              a.End? && a.w == id && q.workers[id].cancelled && !a.how.SeesCancel?
    ensures propagate ==> Next(max, propagate, q, a).tasks[id] == q.tasks[id]
  {
    if id < |q.workers| {
      assert StageFits(q.tasks[id].status, q.workers[id]);
    }
    if WorkerStep(a) {
      WorkerStepIsLocal(max, propagate, q, a);
    }
  }

  lemma TasksGrow(max: nat, propagate: bool, q: Queue, a: Action)
    requires Enabled(propagate, q, a)
    ensures |q.tasks| <= |Next(max, propagate, q, a).tasks|
  {
  }

  lemma InvParts(max: nat, q: Queue)
    requires Inv(max, q)
    ensures StageInv(q) && TableInv(q)
  {
  }

  lemma {:induction false} FinalIsFinal(max: nat, q: Queue, run: seq<Action>, id: nat)
    requires Inv(max, q) && Valid(max, true, q, run) && id < |q.tasks| && Terminal(q.tasks[id].status)
    ensures id < |After(max, true, q, run).tasks| && After(max, true, q, run).tasks[id] == q.tasks[id]
    decreases |run|
  {
    hide Next, Inv, Enabled;
    InvParts(max, q);
    if run == [] {
    } else {
      TasksGrow(max, true, q, run[0]);
      StepKeepsInv(max, true, q, run[0]);
      FinalUnlessSwallowed(max, true, q, run[0], id);
      FinalIsFinal(max, Next(max, true, q, run[0]), run[1..], id);
    }
  }

  // ---------- what the records say ----------

  predicate Reads(q: Queue, id: nat, s: Status) {
    id < |q.tasks| && q.tasks[id].status == s
  }

  /** The record of the worker that steps, by the step. */
  lemma WorkerStepWrites(max: nat, propagate: bool, q: Queue, a: Action)
    requires StageInv(q) && WorkerStep(a) && Enabled(propagate, q, a)
    ensures a.w < |q.tasks| && !q.tasks[a.w].status.Completed? && !q.tasks[a.w].status.Failed?
    ensures var s := Next(max, propagate, q, a).tasks[a.w].status;
            && (s.Completed? <==> a.End? && a.how.Returns?)
            && (s.Failed? <==> a.End? && a.how.Raises?)
  {
    assert StageFits(q.tasks[a.w].status, q.workers[a.w]);
    assert q.workers[a.w].task == a.w;
  }

  /** Other steps write PENDING and CANCELLED only, and that over no final status. */
  lemma OtherStepWrites(max: nat, propagate: bool, q: Queue, a: Action, id: nat)
    requires !WorkerStep(a) && Enabled(propagate, q, a)
    ensures Reads(Next(max, propagate, q, a), id, Completed) <==> Reads(q, id, Completed)
    ensures Reads(Next(max, propagate, q, a), id, Failed) <==> Reads(q, id, Failed)
  {
  }

  lemma StepDecides(max: nat, propagate: bool, q: Queue, a: Action, id: nat)
    requires StageInv(q) && Enabled(propagate, q, a)
    ensures Reads(Next(max, propagate, q, a), id, Completed) <==> Reads(q, id, Completed) || a == End(id, Returns)
    ensures Reads(Next(max, propagate, q, a), id, Failed) <==> Reads(q, id, Failed) || a == End(id, Raises)
  {
    hide Next, Enabled;
    if WorkerStep(a) {
      WorkerStepWrites(max, propagate, q, a);
      WorkerStepIsLocal(max, propagate, q, a);
    } else {
      OtherStepWrites(max, propagate, q, a, id);
    }
  }

  lemma {:induction false} RunDecides(max: nat, propagate: bool, q: Queue, run: seq<Action>, id: nat)
    requires Inv(max, q) && Valid(max, propagate, q, run)
    ensures var e := After(max, propagate, q, run);
            && (Reads(e, id, Completed) <==> Reads(q, id, Completed) || End(id, Returns) in run)
            && (Reads(e, id, Failed) <==> Reads(q, id, Failed) || End(id, Raises) in run)
    decreases |run|
  {
    hide Next, Inv, Reads, Enabled;
    if run == [] {
    } else {
      InvParts(max, q);
      StepKeepsInv(max, propagate, q, run[0]);
      StepDecides(max, propagate, q, run[0], id);
      RunDecides(max, propagate, Next(max, propagate, q, run[0]), run[1..], id);
      assert forall a :: a in run <==> a == run[0] || a in run[1..];
    }
  }

  /** In every run, whatever is stopped or cancelled: a record reads COMPLETED exactly if its
      handler returned, and FAILED exactly if it raised. */
  lemma RecordsAreResults(max: nat, propagate: bool, run: seq<Action>, id: nat)
    requires Valid(max, propagate, EMPTY, run)
    ensures var q := After(max, propagate, EMPTY, run);
            && (id < |q.tasks| && q.tasks[id].status == Completed <==> End(id, Returns) in run)
            && (id < |q.tasks| && q.tasks[id].status == Failed <==> End(id, Raises) in run)
  {
    EmptyInv(max);
    RunDecides(max, propagate, EMPTY, run, id);
  }

  lemma EmptyInv(max: nat)
    ensures Inv(max, EMPTY)
  {
  }

  /** Owners in the order of submission. */
  function Owners(run: seq<Action>): seq<string> {
    if run == [] then []
    else (if run[0].Submit? then [run[0].owner] else []) + Owners(run[1..])
  }

  lemma {:induction false} OwnersStay(max: nat, propagate: bool, q: Queue, run: seq<Action>)
    requires FifoInv(q) && TableInv(q) && Valid(max, propagate, q, run)
    ensures |After(max, propagate, q, run).tasks| == |q.tasks| + |Owners(run)|
    ensures forall id | 0 <= id < |q.tasks| :: After(max, propagate, q, run).tasks[id].owner == q.tasks[id].owner
    ensures forall i | 0 <= i < |Owners(run)| ::
              After(max, propagate, q, run).tasks[|q.tasks| + i].owner == Owners(run)[i]
    decreases |run|
  {
    hide Next, Enabled, FifoInv, TableInv;
    if run == [] {
    } else {
      var a, n := run[0], Next(max, propagate, q, run[0]);
      OwnersStep(max, propagate, q, a);
      OwnersStay(max, propagate, n, run[1..]);
      var shift := if a.Submit? then 1 else 0;
      forall i | 0 <= i < |Owners(run)|
        ensures After(max, propagate, q, run).tasks[|q.tasks| + i].owner == Owners(run)[i]
      {
        if i >= shift {
          assert Owners(run)[i] == Owners(run[1..])[i - shift];
          assert |q.tasks| + i == |n.tasks| + (i - shift);
        }
      }
    }
  }

  lemma OwnersStep(max: nat, propagate: bool, q: Queue, a: Action)
    requires FifoInv(q) && TableInv(q) && Enabled(propagate, q, a)
    ensures var n := Next(max, propagate, q, a);
            && FifoInv(n) && TableInv(n)
            && |n.tasks| == |q.tasks| + (if a.Submit? then 1 else 0)
            && (forall id | 0 <= id < |q.tasks| :: n.tasks[id].owner == q.tasks[id].owner)
            && (a.Submit? ==> n.tasks[|q.tasks|].owner == a.owner)
  {
    StepKeepsTable(max, propagate, q, a);
  }

  /** Who sees a record: everybody if no user is named or it was submitted without an owner, else
      its owner only.  Who may cancel it: who sees it, until it is decided. */
  lemma WhoSees(max: nat, propagate: bool, run: seq<Action>, id: nat, user: string)
    requires Valid(max, propagate, EMPTY, run)
    ensures var q := After(max, propagate, EMPTY, run);
            && |q.tasks| == |Owners(run)|
            && (Visible(q, id, user) <==>
                  id < |Owners(run)| && (user == "" || Owners(run)[id] == "" || Owners(run)[id] == user))
            && (AfterCancel(q, id, user) != q <==>
                  id < |Owners(run)| && (user == "" || Owners(run)[id] == "" || Owners(run)[id] == user) &&
                  q.tasks[id].status != Completed && q.tasks[id].status != Failed && q.tasks[id].status != Cancelled)
  {
    EmptyInv(max);
    OwnersStay(max, propagate, EMPTY, run);
    var q := After(max, propagate, EMPTY, run);
    if id < |q.tasks| {
      assert q.tasks[|EMPTY.tasks| + id].owner == Owners(run)[id];
    }
  }

  // ---------- runs without stop() ----------

  ghost predicate NoStop(run: seq<Action>) {
    forall i | 0 <= i < |run| :: !run[i].StopBegin? && !run[i].StopEnd?
  }

  /** Workers die only with their task decided. */
  ghost predicate UnstoppedInv(q: Queue) {
    forall i | 0 <= i < |q.workers| && i < |q.tasks| ::
      q.workers[i].pc.Exited? || q.workers[i].cancelled ==> Terminal(q.tasks[i].status)
  }

  lemma WorkerStepKeepsUnstopped(max: nat, propagate: bool, q: Queue, a: Action)
    requires StageInv(q) && TableInv(q) && UnstoppedInv(q) && WorkerStep(a) && Enabled(propagate, q, a)
    ensures UnstoppedInv(Next(max, propagate, q, a))
  {
    WorkerStepIsLocal(max, propagate, q, a);
    assert StageFits(q.tasks[a.w].status, q.workers[a.w]);
  }

  lemma CancelKeepsUnstopped(q: Queue, id: nat, user: string)
    requires StageInv(q) && TableInv(q) && SkipInv(q) && UnstoppedInv(q)
    ensures UnstoppedInv(AfterCancel(q, id, user))
  {
    if Cancellable(q, id, user) {
      QueuedIff(q, id);
      if id < |q.workers| {
        assert StageFits(q.tasks[id].status, q.workers[id]);
      }
    }
  }

  lemma DispatchKeepsUnstopped(max: nat, propagate: bool, q: Queue)
    requires FifoInv(q) && UnstoppedInv(q) && Enabled(propagate, q, Dispatch)
    ensures UnstoppedInv(Next(max, propagate, q, Dispatch))
  {
  }

  lemma StepKeepsUnstopped(max: nat, propagate: bool, q: Queue, a: Action)
    requires StageInv(q) && TableInv(q) && SkipInv(q) && UnstoppedInv(q)
    requires Enabled(propagate, q, a) && !a.StopBegin? && !a.StopEnd?
    ensures UnstoppedInv(Next(max, propagate, q, a))
  {
    match a
    case Cancel(id, user) => CancelKeepsUnstopped(q, id, user);
    case Dispatch => DispatchKeepsUnstopped(max, propagate, q);
    case Submit(_) =>
    case Start =>
    case _ => WorkerStepKeepsUnstopped(max, propagate, q, a);
  }

  lemma {:induction false} RunKeepsUnstopped(max: nat, propagate: bool, q: Queue, run: seq<Action>)
    requires Inv(max, q) && UnstoppedInv(q) && Valid(max, propagate, q, run) && NoStop(run)
    ensures UnstoppedInv(After(max, propagate, q, run))
    decreases |run|
  {
    if run == [] {
    } else {
      StepKeepsInv(max, propagate, q, run[0]);
      StepKeepsUnstopped(max, propagate, q, run[0]);
      RunKeepsUnstopped(max, propagate, Next(max, propagate, q, run[0]), run[1..]);
    }
  }

  /** No task is lost or doubled: an undecided task is at exactly one place of the FIFO or
      belongs to exactly one live, uncancelled, listed worker, and never both. */
  lemma Conservation(max: nat, propagate: bool, run: seq<Action>, id: nat)
    requires Valid(max, propagate, EMPTY, run) && NoStop(run)
    requires var q := After(max, propagate, EMPTY, run); id < |q.tasks| && !Terminal(q.tasks[id].status)
    ensures var q := After(max, propagate, EMPTY, run);
            && (forall i, j | 0 <= i < |q.fifo| && 0 <= j < |q.fifo| && q.fifo[i] == q.fifo[j] == id :: i == j)
            && (forall w | 0 <= w < |q.workers| && q.workers[w].task == id :: w == id)
            && (id in q.fifo <==> !(id < |q.workers|))
            && (id < |q.workers| ==>
                  q.workers[id].task == id && Live(q.workers[id].pc) && !q.workers[id].cancelled &&
                  id in q.running && q.running[id] == id)
  {
    Reached(max, propagate, run);
    RunKeepsUnstopped(max, propagate, EMPTY, run);
    var q := After(max, propagate, EMPTY, run);
    QueuedIff(q, id);
    if id < |q.workers| {
      assert StageFits(q.tasks[id].status, q.workers[id]);
    }
  }

  /** The running table lists the live uncancelled workers and, until stop() empties it, exactly
      those tasks that were cancelled while still queued and have since been dispatched and
      skipped; so the active_workers figure overstates by their number. */
  lemma RunningTableExactly(max: nat, propagate: bool, run: seq<Action>, id: nat)
    requires Valid(max, propagate, EMPTY, run)
    ensures var q := After(max, propagate, EMPTY, run);
            id in q.running <==>
              id < |q.workers| && ((Live(q.workers[id].pc) && !q.workers[id].cancelled) ||
                                   (id in q.queuedCancels && !Live(q.workers[id].pc) && id >= q.cleared))
  {
    Reached(max, propagate, run);
  }

  // ---------- progress ----------

  /** No scheduler step is possible, whatever handlers do. */
  ghost predicate Quiescent(q: Queue) {
    forall a: Action :: a.Dispatch? || WorkerStep(a) ==> !Enabled(true, q, a)
  }

  /** Undecided, but in nobody's hands: its worker was cancelled by stop() before it ran. */
  ghost predicate Stranded(q: Queue, id: nat) {
    id < |q.tasks| && id < |q.workers| && q.tasks[id].status.Pending? && q.workers[id].pc.Exited?
  }

  lemma {:induction false} SomeHolder(ws: seq<Worker>, e: nat) returns (w: nat)
    requires Holders(ws, e) > 0
    ensures w < |ws| && ws[w].pc == Handling(e)
  {
    if ws[0].pc == Handling(e) {
      w := 0;
    } else {
      w := SomeHolder(ws[1..], e);
      w := w + 1;
    }
  }

  /** A live worker, or the holder it waits for, can step. */
  lemma LiveCanStep(max: nat, q: Queue, w: nat)
    requires Inv(max, q) && max >= 1 && w < |q.workers| && Live(q.workers[w].pc)
    ensures !Quiescent(q)
  {
    var x := q.workers[w];
    if x.pc.Handling? {
      assert Enabled(true, q, End(w, SeesCancel));
    } else if x.cancelled {
      assert Enabled(true, q, Deliver(w));
    } else if x.pc.Spawned? {
      assert Enabled(true, q, Begin(w));
    } else if q.permits[x.pc.epoch] > 0 {
      assert Enabled(true, q, Acquire(w));
    } else {
      var h := SomeHolder(q.workers, x.pc.epoch);
      assert Enabled(true, q, End(h, SeesCancel));
    }
  }

  // What stop() loses.

  /** The worker has not reached its handler. */
  predicate Unstarted(pc: Pc) {
    pc.Spawned? || pc.Waiting?
  }

  /** Pending, but its worker has died or can only die. */
  ghost predicate Lost(q: Queue, id: nat) {
    && id < |q.tasks| && id < |q.workers| && q.tasks[id].status.Pending?
    && (q.workers[id].pc.Exited? || (q.workers[id].cancelled && Unstarted(q.workers[id].pc)))
  }

  /** The step is the end of stop(), and the task is dispatched but not in its handler. */
  ghost predicate CaughtBy(q: Queue, a: Action, id: nat) {
    && a.StopEnd? && id < |q.tasks| && id < |q.workers|
    && q.tasks[id].status.Pending? && Unstarted(q.workers[id].pc)
  }

  predicate FreedBy(q: Queue, a: Action, id: nat) {
    a.Cancel? && a.id == id && Visible(q, id, a.user)
  }

  lemma WorkerStepLosesNothing(max: nat, propagate: bool, q: Queue, a: Action, id: nat)
    requires StageInv(q) && WorkerStep(a) && Enabled(propagate, q, a)
    ensures Lost(Next(max, propagate, q, a), id) <==> Lost(q, id)
  {
    WorkerStepIsLocal(max, propagate, q, a);
    assert StageFits(q.tasks[a.w].status, q.workers[a.w]);
  }

  lemma CancelFrees(q: Queue, id: nat, user: string, lost: nat)
    requires StageInv(q) && TableInv(q)
    ensures Lost(AfterCancel(q, id, user), lost) <==> Lost(q, lost) && !(id == lost && Visible(q, id, user))
  {
  }

  lemma StopCatches(max: nat, propagate: bool, q: Queue, id: nat)
    requires StageInv(q) && TableInv(q) && q.stopping > 0
    ensures Lost(Next(max, propagate, q, StopEnd), id) <==> Lost(q, id) || CaughtBy(q, StopEnd, id)
  {
    if id < |q.workers| && Live(q.workers[id].pc) && !q.workers[id].cancelled {
      assert id in q.running && q.running[id] == id;
    }
  }

  /** How tasks get lost, and found again, step by step. */
  lemma StepLosesIff(max: nat, propagate: bool, q: Queue, a: Action, id: nat)
    requires StageInv(q) && TableInv(q) && Enabled(propagate, q, a)
    ensures Lost(Next(max, propagate, q, a), id) <==> (Lost(q, id) && !FreedBy(q, a, id)) || CaughtBy(q, a, id)
  {
    match a
    case Cancel(i, user) => CancelFrees(q, i, user, id);
    case StopEnd => StopCatches(max, propagate, q, id);
    case Dispatch =>
    case Submit(_) =>
    case Start =>
    case StopBegin =>
    case _ => WorkerStepLosesNothing(max, propagate, q, a, id);
  }

  /** No step of the run is a cancellation of the task by somebody who may see it. */
  ghost predicate LeftAlone(max: nat, propagate: bool, q: Queue, run: seq<Action>, id: nat)
    requires Valid(max, propagate, q, run)
    decreases |run|
  {
    run == [] ||
    (!FreedBy(q, run[0], id) && LeftAlone(max, propagate, Next(max, propagate, q, run[0]), run[1..], id))
  }

  /** Some stop() of the run catches the task between dispatch and handler, and nobody who may
      see it cancels it afterwards. */
  ghost predicate Caught(max: nat, propagate: bool, q: Queue, run: seq<Action>, id: nat)
    requires Valid(max, propagate, q, run)
    decreases |run|
  {
    run != [] &&
    var n := Next(max, propagate, q, run[0]);
    (CaughtBy(q, run[0], id) && LeftAlone(max, propagate, n, run[1..], id)) || Caught(max, propagate, n, run[1..], id)
  }

  /** A run leaves a task lost exactly if it was lost or one of its stops catches it, and it is
      not cancelled from then on. */
  lemma {:induction false} RunLosesIff(max: nat, propagate: bool, q: Queue, run: seq<Action>, id: nat)
    requires Inv(max, q) && Valid(max, propagate, q, run)
    ensures Lost(After(max, propagate, q, run), id) <==>
              (Lost(q, id) && LeftAlone(max, propagate, q, run, id)) || Caught(max, propagate, q, run, id)
    decreases |run|
  {
    hide Next, Inv, Lost, CaughtBy, FreedBy;
    if run == [] {
    } else {
      InvParts(max, q);
      StepKeepsInv(max, propagate, q, run[0]);
      StepLosesIff(max, propagate, q, run[0], id);
      RunLosesIff(max, propagate, Next(max, propagate, q, run[0]), run[1..], id);
    }
  }

  /** While the queue runs with at least one permit and nothing can move any more, a task is
      undecided exactly if some stop() of the run caught it between its dispatch and its handler
      and nobody who may see it has cancelled it since. */
  lemma RestIsDecided(max: nat, propagate: bool, run: seq<Action>, id: nat)
    requires max >= 1 && Valid(max, propagate, EMPTY, run)
    requires var q := After(max, propagate, EMPTY, run); q.isRunning && Quiescent(q) && id < |q.tasks|
    ensures var q := After(max, propagate, EMPTY, run);
            && (!Terminal(q.tasks[id].status) <==> Caught(max, propagate, EMPTY, run, id))
            && (NoStop(run) ==> Terminal(q.tasks[id].status))
  {
    Reached(max, propagate, run);
    RunLosesIff(max, propagate, EMPTY, run, id);
    RestIsLost(max, After(max, propagate, EMPTY, run), id);
    if NoStop(run) {
      NoStopCatchesNothing(max, propagate, EMPTY, run, id);
    }
  }

  lemma RestIsLost(max: nat, q: Queue, id: nat)
    requires max >= 1 && Inv(max, q) && q.isRunning && Quiescent(q) && id < |q.tasks|
    ensures !Terminal(q.tasks[id].status) <==> Lost(q, id)
  {
    assert Enabled(true, q, Dispatch) <==> q.fifo != [];
    if id < |q.workers| {
      assert StageFits(q.tasks[id].status, q.workers[id]);
      if Live(q.workers[id].pc) {
        LiveCanStep(max, q, id);
      }
    }
  }

  lemma {:induction false} NoStopCatchesNothing(max: nat, propagate: bool, q: Queue, run: seq<Action>, id: nat)
    requires Valid(max, propagate, q, run) && NoStop(run)
    ensures !Caught(max, propagate, q, run, id)
    decreases |run|
  {
    if run == [] {
    } else {
      NoStopCatchesNothing(max, propagate, Next(max, propagate, q, run[0]), run[1..], id);
    }
  }

  /** stop() strands every pending task whose worker has been dispatched but not let in: the
      cancellation is the only step left to that worker, and it leaves the record PENDING. */
  lemma StopStrandsWaiters(max: nat, propagate: bool, q: Queue, w: nat)
    requires Inv(max, q) && q.stopping > 0 && w < |q.workers| && q.tasks[w].status.Pending?
    requires Unstarted(q.workers[w].pc)
    ensures var n := Next(max, propagate, q, StopEnd);
            && Enabled(propagate, n, Deliver(w))
            && !Enabled(propagate, n, Begin(w)) && !Enabled(propagate, n, Acquire(w))
            && Stranded(Next(max, propagate, n, Deliver(w)), w)
  {
    if !q.workers[w].cancelled {
      assert w in q.running && q.running[w] == w;
    }
  }

  /** A stranded task stays pending until somebody cancels it. */
  lemma StrandedStays(max: nat, propagate: bool, q: Queue, a: Action, id: nat)
    requires FifoInv(q) && TableInv(q) && Stranded(q, id) && Enabled(propagate, q, a)
    ensures Stranded(Next(max, propagate, q, a), id) <==> !(a.Cancel? && a.id == id && Visible(q, id, a.user))
  {
    if WorkerStep(a) {
      WorkerStepIsLocal(max, propagate, q, a);
    }
  }

  function WorkerRank(w: Worker): nat {
    match w.pc
    case Spawned => 3
    case Waiting(_) => 2
    case Handling(_) => 1
    case _ => 0
  }

  function WorkLeft(ws: seq<Worker>): nat {
    if ws == [] then 0 else WorkerRank(ws[0]) + WorkLeft(ws[1..])
  }

  lemma {:induction false} WorkUpdate(ws: seq<Worker>, w: nat, x: Worker)
    requires w < |ws|
    ensures WorkLeft(ws[w := x]) == WorkLeft(ws) - WorkerRank(ws[w]) + WorkerRank(x)
  {
    if w > 0 {
      WorkUpdate(ws[1..], w - 1, x);
      assert ws[w := x][1..] == ws[1..][w - 1 := x];
    } else {
      assert ws[w := x][1..] == ws[1..];
    }
  }

  lemma {:induction false} WorkAppend(ws: seq<Worker>, x: Worker)
    ensures WorkLeft(ws + [x]) == WorkLeft(ws) + WorkerRank(x)
  {
    if ws == [] {
    } else {
      WorkAppend(ws[1..], x);
      assert (ws + [x])[1..] == ws[1..] + [x];
    }
  }

  /** Scheduler steps run out: four a task at most. */
  lemma {:induction false} SchedulingEnds(max: nat, propagate: bool, q: Queue, run: seq<Action>)
    requires FifoInv(q) && Valid(max, propagate, q, run)
    requires forall i | 0 <= i < |run| :: run[i].Dispatch? || WorkerStep(run[i])
    ensures |run| <= 4 * |q.fifo| + WorkLeft(q.workers)
    decreases |run|
  {
    if run == [] {
    } else {
      var a := run[0];
      var n := Next(max, propagate, q, a);
      if a.Dispatch? {
        WorkAppend(q.workers, n.workers[|q.workers|]);
      } else {
        WorkerStepIsLocal(max, propagate, q, a);
        WorkUpdate(q.workers, a.w, n.workers[a.w]);
      }
      SchedulingEnds(max, propagate, n, run[1..]);
    }
  }
}
