/** The background queue as a scheduler: records, the FIFO of ids, worker coroutines and semaphores.
    Task ids are submission numbers.  Every stretch of code between suspension points is one
    step. */
module QueueModel {

  datatype Status = Pending | Running | Completed | Failed | Cancelled

  predicate Terminal(s: Status) {
    s.Completed? || s.Failed? || s.Cancelled?
  }

  /** owner "" is no owner. */
  datatype Record = Record(owner: string, status: Status)

  /** epoch: the semaphore, by start number, that the worker queues at or holds. */
  datatype Pc =
    | Spawned                // created, not yet run
    | Waiting(epoch: nat)    // at the semaphore
    | Handling(epoch: nat)   // holds a permit, handler running
    | Skipped                // found its record cancelled and returned
    | Exited

  /** cancelled: asyncio cancellation has been requested. */
  datatype Worker = Worker(task: nat, pc: Pc, cancelled: bool)

  /** queuedCancels: tasks that cancel_task found still in the FIFO.  invoked: handler calls, in order.
      cleared: number of workers there were when stop() last emptied the running table. */
  datatype Queue = Queue(tasks: seq<Record>, fifo: seq<nat>, running: map<nat, nat>, workers: seq<Worker>,
                         permits: seq<int>, isRunning: bool, stopping: nat,
                         queuedCancels: set<nat>, invoked: seq<nat>, cleared: nat)

  const EMPTY := Queue([], [], map[], [], [], false, 0, {}, [], 0)

  datatype HandlerEnd = Returns | Raises | SeesCancel

  datatype Action =
    | Submit(owner: string)
    | Start
    | StopBegin                      // stop() up to its wait for the dispatcher
    | StopEnd                        // the rest of stop()
    | Cancel(id: nat, user: string)
    | Dispatch
    | Begin(w: nat)
    | Acquire(w: nat)
    | End(w: nat, how: HandlerEnd)
    | Deliver(w: nat)                // a requested cancellation ends a worker that is not in its handler

  predicate Live(pc: Pc) {
    pc.Spawned? || pc.Waiting? || pc.Handling?
  }

  /** get_task: an owned record is hidden from other named users. */
  predicate Visible(q: Queue, id: nat, user: string) {
    id < |q.tasks| && (user == "" || q.tasks[id].owner == "" || q.tasks[id].owner == user)
  }

  predicate Cancellable(q: Queue, id: nat, user: string) {
    Visible(q, id, user) && !Terminal(q.tasks[id].status)
  }

  function SetStatus(q: Queue, id: nat, s: Status): Queue
    requires id < |q.tasks|
  {
    q.(tasks := q.tasks[id := q.tasks[id].(status := s)])
  }

  function SetPc(q: Queue, w: nat, pc: Pc): Queue
    requires w < |q.workers|
  {
    q.(workers := q.workers[w := q.workers[w].(pc := pc)])
  }

  function EndStatus(how: HandlerEnd): Status {
    match how
    case Returns => Completed
    case Raises => Failed
    case SeesCancel => Cancelled
  }

  function RequestCancel(w: Worker): Worker {
    if Live(w.pc) then w.(cancelled := true) else w
  }

  /** stop() cancels every worker listed in the running table. */
  function CancelListed(q: Queue): seq<Worker> {
    seq(|q.workers|, i requires 0 <= i < |q.workers| =>
      if i in q.running.Values then RequestCancel(q.workers[i]) else q.workers[i])
  }

  /** propagate: handlers let a requested cancellation through. */
  predicate Enabled(propagate: bool, q: Queue, a: Action) {
    match a
    case Submit(_) => true
    case Start => true
    case StopBegin => true
    case StopEnd => q.stopping > 0
    case Cancel(_, _) => true
    case Dispatch => q.isRunning && q.fifo != []
    case Begin(w) => w < |q.workers| && q.workers[w].pc.Spawned? && !q.workers[w].cancelled
                     && q.workers[w].task < |q.tasks| && |q.permits| > 0
    case Acquire(w) => w < |q.workers| && q.workers[w].pc.Waiting? && !q.workers[w].cancelled
                       && q.workers[w].task < |q.tasks|
                       && q.workers[w].pc.epoch < |q.permits| && q.permits[q.workers[w].pc.epoch] > 0
    case End(w, how) => w < |q.workers| && q.workers[w].pc.Handling? && q.workers[w].task < |q.tasks|
                        && q.workers[w].pc.epoch < |q.permits|
                        && (propagate && q.workers[w].cancelled ==> how.SeesCancel?)
    case Deliver(w) => w < |q.workers| && q.workers[w].cancelled
                       && (q.workers[w].pc.Spawned? || q.workers[w].pc.Waiting?)
  }

  function AfterCancel(q: Queue, id: nat, user: string): Queue {
    if !Cancellable(q, id, user) then q
    else
      var q1 := SetStatus(q, id, Cancelled);
      var q2 := if id in q.fifo then q1.(queuedCancels := q.queuedCancels + {id}) else q1;
      if id in q.running && q.running[id] < |q.workers| then
        q2.(workers := q.workers[q.running[id] := RequestCancel(q.workers[q.running[id]])], running := q.running - {id})
      else q2.(running := q.running - {id})
  }

  function Next(max: nat, propagate: bool, q: Queue, a: Action): Queue
    requires Enabled(propagate, q, a)
  {
    match a
    case Submit(owner) => q.(tasks := q.tasks + [Record(owner, Pending)], fifo := q.fifo + [|q.tasks|])
    case Start => if q.isRunning then q else q.(isRunning := true, permits := q.permits + [max])
    case StopBegin => q.(isRunning := false, stopping := q.stopping + 1)
    case StopEnd =>
      q.(stopping := q.stopping - 1, workers := CancelListed(q), running := map[], cleared := |q.workers|)
    case Cancel(id, user) => AfterCancel(q, id, user)
    case Dispatch =>
      q.(fifo := q.fifo[1..], workers := q.workers + [Worker(q.fifo[0], Spawned, false)],
         running := q.running[q.fifo[0] := |q.workers|])
    case Begin(w) =>
      SetPc(q, w, if q.tasks[q.workers[w].task].status.Cancelled? then Skipped else Waiting(|q.permits| - 1))
    case Acquire(w) =>
      var e := q.workers[w].pc.epoch;
      SetStatus(SetPc(q, w, Handling(e)), q.workers[w].task, Running)
        .(permits := q.permits[e := q.permits[e] - 1], invoked := q.invoked + [q.workers[w].task])
    case End(w, how) =>
      var e := q.workers[w].pc.epoch;
      SetStatus(SetPc(q, w, Exited), q.workers[w].task, EndStatus(how))
        .(permits := q.permits[e := q.permits[e] + 1], running := q.running - {q.workers[w].task})
    case Deliver(w) => SetPc(q, w, Exited)
  }

  ghost predicate Valid(max: nat, propagate: bool, q: Queue, run: seq<Action>)
    decreases |run|
  {
    run == [] || (Enabled(propagate, q, run[0]) && Valid(max, propagate, Next(max, propagate, q, run[0]), run[1..]))
  }

  ghost function After(max: nat, propagate: bool, q: Queue, run: seq<Action>): Queue
    requires Valid(max, propagate, q, run)
    decreases |run|
  {
    if run == [] then q else After(max, propagate, Next(max, propagate, q, run[0]), run[1..])
  }
}
