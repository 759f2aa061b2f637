/** The queue object.  Public methods and the two loops of the source are cut at their awaits;
    each piece updates the fields in place. */
module TaskQueue {
  import opened QueueModel

  datatype Option<T> = None | Some(value: T)

  class AsyncTaskQueue {
    const maxConcurrent: nat
    var tasks: seq<Record>
    var queue: seq<nat>
    var runningTasks: map<nat, nat>
    var workers: seq<Worker>
    var semaphores: seq<int>
    var isRunning: bool
    var stopping: nat
    ghost var queuedCancels: set<nat>
    ghost var invoked: seq<nat>
    ghost var cleared: nat

    ghost function View(): Queue
      reads this
    {
      Queue(tasks, queue, runningTasks, workers, semaphores, isRunning, stopping, queuedCancels, invoked,
            cleared)
    }

    constructor (maxConcurrentWorkers: nat)
      ensures View() == EMPTY && maxConcurrent == maxConcurrentWorkers
    {
      maxConcurrent := maxConcurrentWorkers;
      tasks, queue, runningTasks, workers, semaphores := [], [], map[], [], [];
      isRunning, stopping, queuedCancels, invoked, cleared := false, 0, {}, [], 0;
    }

    method Start()
      modifies this
      ensures View() == Next(maxConcurrent, false, old(View()), Action.Start)
      ensures isRunning && tasks == old(tasks) && queue == old(queue) && workers == old(workers)
      ensures semaphores == if old(isRunning) then old(semaphores) else old(semaphores) + [maxConcurrent]
    {
      if isRunning {
        return;
      }
      isRunning := true;
      semaphores := semaphores + [maxConcurrent];
    }

    method StopBegin()
      modifies this
      ensures View() == Next(maxConcurrent, false, old(View()), Action.StopBegin)
      ensures !isRunning && tasks == old(tasks) && queue == old(queue) && workers == old(workers)
    {
      isRunning := false;
      stopping := stopping + 1;
    }

    method StopEnd()
      requires Enabled(false, View(), Action.StopEnd)
      modifies this
      ensures View() == Next(maxConcurrent, false, old(View()), Action.StopEnd)
      ensures runningTasks == map[] && tasks == old(tasks) && queue == old(queue) && |workers| == |old(workers)|
      ensures forall w | 0 <= w < |workers| ::
                && workers[w].task == old(workers)[w].task && workers[w].pc == old(workers)[w].pc
                && (workers[w].cancelled <==>
                      old(workers)[w].cancelled ||
                      (w in old(runningTasks).Values &&
                       (workers[w].pc.Spawned? || workers[w].pc.Waiting? || workers[w].pc.Handling?)))
    {
      var w := 0;
      while w < |workers|
        invariant 0 <= w <= |workers| == |old(workers)|
        invariant forall i | 0 <= i < |workers| ::
                    workers[i] == if i < w && i in runningTasks.Values then RequestCancel(old(workers)[i])
                                  else old(workers)[i]
        invariant View() == old(View()).(workers := workers)
      {
        if w in runningTasks.Values && Live(workers[w].pc) {
          workers := workers[w := workers[w].(cancelled := true)];
        }
        w := w + 1;
      }
      assert workers == CancelListed(old(View()));
      runningTasks := map[];
      stopping := stopping - 1;
      cleared := |workers|;
    }

    /** An unknown task name is refused. */
    method SubmitTask(known: bool, owner: string) returns (id: Option<nat>)
      modifies this
      ensures !known ==> id == None && View() == old(View())
      ensures known ==> tasks == old(tasks) + [Record(owner, Pending)] && queue == old(queue) + [|old(tasks)|]
      ensures known ==> id == Some(|old(tasks)|) && View() == Next(maxConcurrent, false, old(View()), Submit(owner))
    {
      if !known {
        return None;
      }
      id := Some(|tasks|);
      tasks := tasks + [Record(owner, Pending)];
      queue := queue + [id.value];
    }

    method GetTask(id: nat, user: string) returns (task: Option<Record>)
      ensures task == if Visible(View(), id, user) then Some(tasks[id]) else None
      ensures task == if id < |tasks| && (user == "" || tasks[id].owner == "" || tasks[id].owner == user)
                      then Some(tasks[id]) else None
    {
      if id >= |tasks| {
        return None;
      }
      if user != "" && tasks[id].owner != "" && tasks[id].owner != user {
        return None;
      }
      return Some(tasks[id]);
    }

    method CancelTask(id: nat, user: string) returns (done: bool)
      requires forall i | i in runningTasks :: runningTasks[i] < |workers|
      modifies this
      ensures done <==> old(Cancellable(View(), id, user))
      ensures View() == Next(maxConcurrent, false, old(View()), Cancel(id, user))
      ensures done <==> id < |old(tasks)| &&
                        (user == "" || old(tasks)[id].owner == "" || old(tasks)[id].owner == user) &&
                        old(tasks)[id].status in {Pending, Running}
      ensures !done ==> tasks == old(tasks) && workers == old(workers) && runningTasks == old(runningTasks)
      ensures done ==> tasks == old(tasks)[id := old(tasks)[id].(status := Cancelled)] &&
                       runningTasks == old(runningTasks) - {id} && |workers| == |old(workers)|
      ensures done && id in old(runningTasks) ==>
                var w := old(runningTasks)[id]; Live(workers[w].pc) ==> workers[w].cancelled
      ensures queue == old(queue)
    {
      var task := GetTask(id, user);
      if task == None || Terminal(task.value.status) {
        return false;
      }
      tasks := tasks[id := tasks[id].(status := Cancelled)];
      ghost var queued := id in queue;
      queuedCancels := if queued then queuedCancels + {id} else queuedCancels;
      if id in runningTasks {
        var w := runningTasks[id];
        if Live(workers[w].pc) {
          workers := workers[w := workers[w].(cancelled := true)];
        }
      }
      runningTasks := runningTasks - {id};
      return true;
    }

    /** One turn of the dispatcher loop. */
    method DispatchOne()
      requires Enabled(false, View(), Dispatch)
      modifies this
      ensures View() == Next(maxConcurrent, false, old(View()), Dispatch)
      ensures queue == old(queue)[1..] && workers == old(workers) + [Worker(old(queue)[0], Spawned, false)]
      ensures runningTasks == old(runningTasks)[old(queue)[0] := |old(workers)|] && tasks == old(tasks)
    {
      var id := queue[0];
      queue := queue[1..];
      runningTasks := runningTasks[id := |workers|];
      workers := workers + [Worker(id, Spawned, false)];
    }

    /** A worker from its first instruction to the semaphore. */
    method BeginWorker(w: nat)
      requires Enabled(false, View(), Begin(w))
      modifies this
      ensures View() == Next(maxConcurrent, false, old(View()), Begin(w))
      ensures workers == old(workers)[w := workers[w]] && tasks == old(tasks) && runningTasks == old(runningTasks)
      ensures workers[w].pc == if tasks[old(workers)[w].task].status == Cancelled then Skipped
                               else Waiting(|semaphores| - 1)
    {
      if tasks[workers[w].task].status == Cancelled {
        workers := workers[w := workers[w].(pc := Skipped)];
        return;
      }
      workers := workers[w := workers[w].(pc := Waiting(|semaphores| - 1))];
    }

    method AcquirePermit(w: nat)
      requires Enabled(false, View(), Acquire(w))
      modifies this
      ensures View() == Next(maxConcurrent, false, old(View()), Acquire(w))
      ensures var e, id := old(workers)[w].pc.epoch, old(workers)[w].task;
              && semaphores == old(semaphores)[e := old(semaphores)[e] - 1]
              && tasks == old(tasks)[id := old(tasks)[id].(status := Running)]
              && workers == old(workers)[w := old(workers)[w].(pc := Handling(e))]
              && invoked == old(invoked) + [id]
    {
      var e, id := workers[w].pc.epoch, workers[w].task;
      semaphores := semaphores[e := semaphores[e] - 1];
      workers := workers[w := workers[w].(pc := Handling(e))];
      tasks := tasks[id := tasks[id].(status := Running)];
      invoked := invoked + [id];
    }

    /** From the end of the handler to the end of the worker. */
    method EndHandler(w: nat, how: HandlerEnd)
      requires Enabled(false, View(), End(w, how))
      modifies this
      ensures View() == Next(maxConcurrent, false, old(View()), End(w, how))
      ensures var e, id := old(workers)[w].pc.epoch, old(workers)[w].task;
              && |tasks| == |old(tasks)|
              && (how.Returns? ==> tasks[id].status == Completed)
              && (how.Raises? ==> tasks[id].status == Failed)
              && (how.SeesCancel? ==> tasks[id].status == Cancelled)
              && (forall i | 0 <= i < |tasks| ::
                    tasks[i].owner == old(tasks)[i].owner && (i != id ==> tasks[i] == old(tasks)[i]))
              && semaphores == old(semaphores)[e := old(semaphores)[e] + 1]
              && runningTasks == old(runningTasks) - {id}
              && workers == old(workers)[w := old(workers)[w].(pc := Exited)]
    {
      var e, id := workers[w].pc.epoch, workers[w].task;
      match how {
        case Returns => tasks := tasks[id := tasks[id].(status := Completed)];
        case SeesCancel => tasks := tasks[id := tasks[id].(status := Cancelled)];
        case Raises => tasks := tasks[id := tasks[id].(status := Failed)];
      }
      runningTasks := runningTasks - {id};
      semaphores := semaphores[e := semaphores[e] + 1];
      workers := workers[w := workers[w].(pc := Exited)];
    }

    method DeliverCancellation(w: nat)
      requires Enabled(false, View(), Deliver(w))
      modifies this
      ensures View() == Next(maxConcurrent, false, old(View()), Deliver(w))
      ensures workers == old(workers)[w := old(workers)[w].(pc := Exited)] && tasks == old(tasks)
    {
      workers := workers[w := workers[w].(pc := Exited)];
    }

    // ---------- queries ----------

    static function CountOf(ts: seq<Record>, s: Status): nat {
      if ts == [] then 0 else CountOf(ts[..|ts| - 1], s) + if ts[|ts| - 1].status == s then 1 else 0
    }

    /** The five status counts are those of the records and account for every task. */
    method GetStats() returns (pending: nat, running: nat, completed: nat, failed: nat, cancelled: nat, total: nat)
      ensures pending == CountOf(tasks, Pending) && running == CountOf(tasks, Running)
      ensures completed == CountOf(tasks, Completed) && failed == CountOf(tasks, Failed)
      ensures cancelled == CountOf(tasks, Cancelled)
      ensures pending + running + completed + failed + cancelled == total == |tasks|
    {
      pending, running, completed, failed, cancelled, total := 0, 0, 0, 0, 0, 0;
      while total < |tasks|
        invariant 0 <= total <= |tasks|
        invariant pending == CountOf(tasks[..total], Pending) && running == CountOf(tasks[..total], Running)
        invariant completed == CountOf(tasks[..total], Completed) && failed == CountOf(tasks[..total], Failed)
        invariant cancelled == CountOf(tasks[..total], Cancelled)
        invariant pending + running + completed + failed + cancelled == total
      {
        assert tasks[..total + 1][..total] == tasks[..total];
        match tasks[total].status {
          case Pending => pending := pending + 1;
          case Running => running := running + 1;
          case Completed => completed := completed + 1;
          case Failed => failed := failed + 1;
          case Cancelled => cancelled := cancelled + 1;
        }
        total := total + 1;
      }
      assert tasks[..total] == tasks;
    }

    static predicate Matches(t: Record, user: string, status: Option<Status>) {
      && (user == "" || t.owner == "" || t.owner == user)
      && (status == None || status.value == t.status)
    }

    /** Ids of the first k records that match, newest first. */
    static function Matching(ts: seq<Record>, user: string, status: Option<Status>, k: nat): seq<nat>
      requires k <= |ts|
    {
      if k == 0 then []
      else (if Matches(ts[k - 1], user, status) then [k - 1] else []) + Matching(ts, user, status, k - 1)
    }

    /** Listed are records that a named user may see, in the status asked for. */
    static lemma MatchesMeans(t: Record, user: string, status: Option<Status>)
      ensures Matches(t, user, status) <==>
                && (user == "" || t.owner == "" || t.owner == user)
                && (status == None || status == Some(t.status))
    {
    }

    static ghost predicate Descending(ids: seq<nat>) {
      forall i, j | 0 <= i < j < |ids| :: ids[i] > ids[j]
    }

    static lemma InFront(id: nat, rest: seq<nat>)
      requires Descending(rest) && forall i | 0 <= i < |rest| :: rest[i] < id
      ensures Descending([id] + rest)
      ensures forall j: nat :: j in [id] + rest <==> j == id || j in rest
    {
    }

    /** All of them, newest first. */
    static lemma {:induction false} MatchingMeans(ts: seq<Record>, user: string, status: Option<Status>, k: nat)
      requires k <= |ts|
      ensures Descending(Matching(ts, user, status, k))
      ensures forall id: nat :: id in Matching(ts, user, status, k) <==> id < k && Matches(ts[id], user, status)
    {
      hide Matches, Descending, Matching;
      Unfold(ts, user, status, k);
      if k == 0 {
        Nothing();
      } else {
        var rest := Matching(ts, user, status, k - 1);
        MatchingMeans(ts, user, status, k - 1);
        assert forall i | 0 <= i < |rest| :: rest[i] in rest;
        InFront(k - 1, rest);
      }
    }

    static lemma Unfold(ts: seq<Record>, user: string, status: Option<Status>, k: nat)
      requires k <= |ts|
      ensures k == 0 ==> Matching(ts, user, status, k) == []
      ensures k > 0 ==>
                var rest := Matching(ts, user, status, k - 1);
                Matching(ts, user, status, k) == if Matches(ts[k - 1], user, status) then [k - 1] + rest else rest
    {
    }

    static lemma Nothing()
      ensures Descending([])
    {
    }

    /** The newest matching records; the limit is tested after each append, so one match is
        returned even for a limit of zero or less. */
    method ListTasks(user: string, status: Option<Status>, limit: int) returns (ids: seq<nat>)
      ensures var all := Matching(tasks, user, status, |tasks|);
              var bound := if limit > 1 then limit else 1;
              ids == if |all| <= bound then all else all[..bound]
    {
      ids := [];
      var k := |tasks|;
      ghost var all := Matching(tasks, user, status, k);
      while k > 0
        invariant 0 <= k <= |tasks|
        invariant ids + Matching(tasks, user, status, k) == all
        invariant ids == [] || |ids| < limit
      {
        k := k - 1;
        if Matches(tasks[k], user, status) {
          PushBack(ids, k, Matching(tasks, user, status, k));
          ids := ids + [k];
          if |ids| >= limit {
            return;
          }
        } else {
          assert Matching(tasks, user, status, k + 1) == Matching(tasks, user, status, k);
        }
      }
    }

    static lemma PushBack(ids: seq<nat>, k: nat, rest: seq<nat>)
      ensures ids + ([k] + rest) == (ids + [k]) + rest
      ensures (ids + ([k] + rest))[..|ids| + 1] == ids + [k]
    {
    }
  }
}
