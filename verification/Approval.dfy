/** The approval bookkeeping of the travel service over non-overlapping calls. */
module Approval {
  import opened Workflow

  type Thread = string

  /** What the client gets to see of a checkpoint. */
  datatype Payload = Payload(status: Status, itinerary: string, approved: bool, feedback: string, answer: string)

  function Serialize(g: Graph): Payload {
    Payload(g.status, g.itinerary, g.approved, g.feedback, g.answer)
  }

  datatype Service = Service(graphs: map<Thread, Graph>, timestamps: map<Thread, real>, history: map<Thread, Payload>)

  /** Unheard: the client of the stream was gone. */
  datatype Reply = Answer(payload: Payload) | NotFound | InvalidState | Expired | Failure | Unheard

  /** permitted: the ownership check passes.  gone: the streaming client has disconnected by the
      end of the run. */
  datatype Call =
    | Execute(thread: Thread, x: Script, now: real, permitted: bool)
    | Stream(thread: Thread, x: Script, now: real, permitted: bool, gone: bool)
    | Resume(thread: Thread, approved: bool, feedback: string, x: Script, now: real, permitted: bool)

  const EMPTY := Service(map[], map[], map[])

  function NewRun(s: Service, t: Thread): Graph {
    if t in s.graphs then Begin(s.graphs[t].finalStarts, s.graphs[t].finalDone) else Begin(0, 0)
  }

  /** A run from the start.  The time of the interrupt is noted unless the run raised or its
      client was gone. */
  function AfterRun(s: Service, t: Thread, x: Script, now: real, note: bool): (Service, Reply) {
    var (g, e) := Drive(NewRun(s, t), x, NoReview);
    var s1 := s.(graphs := s.graphs[t := g]);
    if e.Raised? then (s1, Failure)
    else (if e.Interrupted? && note then s1.(timestamps := s.timestamps[t := now]) else s1, Answer(Serialize(g)))
  }

  predicate OutOfTime(s: Service, t: Thread, now: real, ttl: real) {
    t in s.timestamps && s.timestamps[t] != 0.0 && now - s.timestamps[t] > ttl
  }

  /** resume really continues the graph. */
  predicate Advances(s: Service, c: Call, ttl: real) {
    && c.Resume? && c.permitted && c.thread !in s.history && c.thread in s.graphs
    && s.graphs[c.thread].next.HumanApproval? && !OutOfTime(s, c.thread, c.now, ttl)
  }

  function AfterResume(s: Service, c: Call, ttl: real): (Service, Reply)
    requires c.Resume?
  {
    var t := c.thread;
    if !c.permitted then (s, NotFound)
    else if t in s.history then (s, Answer(s.history[t]))
    else if t !in s.graphs then (s, NotFound)
    else
      var g := s.graphs[t];
      if g.next.Done? && (g.status == APPROVED || g.status == REVISION_REQUESTED || g.status == COMPLETED) then
        (s.(history := s.history[t := Serialize(g)]), Answer(Serialize(g)))
      else if !g.next.HumanApproval? then (s, InvalidState)
      else if OutOfTime(s, t, c.now, ttl) then (s, Expired)
      else
        var (h, e) := Drive(g, c.x, Review(c.approved, c.feedback));
        var s1 := s.(graphs := s.graphs[t := h]);
        if e.Raised? then (s1, Failure)
        else (s1.(history := s.history[t := Serialize(h)], timestamps := s.timestamps - {t}), Answer(Serialize(h)))
  }

  function Next(ttl: real, s: Service, c: Call): (Service, Reply) {
    match c
    case Execute(t, x, now, ok) => if ok then AfterRun(s, t, x, now, true) else (s, NotFound)
    case Stream(t, x, now, ok, gone) =>
      if !ok then (s, NotFound)
      else
        var (n, reply) := AfterRun(s, t, x, now, !gone);
        (n, if gone && reply.Answer? then Unheard else reply)
    case Resume(_, _, _, _, _, _) => AfterResume(s, c, ttl)
  }

  function After(ttl: real, s: Service, calls: seq<Call>): Service
    decreases |calls|
  {
    if calls == [] then s else After(ttl, Next(ttl, s, calls[0]).0, calls[1..])
  }

  // ---------- over whole runs ----------

  /** A process has just started: the service remembers nothing, but checkpoints of earlier
      processes may be there.  The final agent's runs are counted per process. */
  ghost predicate FreshProcess(s: Service) {
    && s.timestamps == map[] && s.history == map[]
    && forall t | t in s.graphs :: Shaped(s.graphs[t]) && s.graphs[t].finalStarts == s.graphs[t].finalDone == 0
  }

  ghost predicate Inv(s: Service) {
    && (forall t | t in s.graphs ::
          Shaped(s.graphs[t]) && s.graphs[t].finalDone <= 1 && (s.graphs[t].finalDone == 1 ==> t in s.history))
    && (forall t | t in s.history :: t in s.graphs && s.history[t].status == COMPLETED)
  }

  lemma RunKeepsInv(s: Service, t: Thread, x: Script, now: real, note: bool)
    requires Inv(s)
    ensures Inv(AfterRun(s, t, x, now, note).0)
  {
    NoReviewNoFinal(NewRun(s, t), x);
  }

  lemma ResumeKeepsInv(s: Service, c: Call, ttl: real)
    requires Inv(s) && c.Resume?
    ensures Inv(AfterResume(s, c, ttl).0)
  {
    assert c.thread in s.graphs ==> Shaped(s.graphs[c.thread]);
    if Advances(s, c, ttl) {
      ReviewRunsFinal(s.graphs[c.thread], c.x, Review(c.approved, c.feedback));
    }
  }

  lemma StepKeepsInv(ttl: real, s: Service, c: Call)
    requires Inv(s)
    ensures Inv(Next(ttl, s, c).0)
  {
    match c
    case Execute(t, x, now, ok) => RunKeepsInv(s, t, x, now, true);
    case Stream(t, x, now, ok, gone) => RunKeepsInv(s, t, x, now, !gone);
    case Resume(_, _, _, _, _, _) => ResumeKeepsInv(s, c, ttl);
  }

  lemma {:induction false} ReachableInv(ttl: real, s: Service, calls: seq<Call>)
    requires Inv(s)
    ensures Inv(After(ttl, s, calls))
    decreases |calls|
  {
    if calls == [] {
    } else {
      StepKeepsInv(ttl, s, calls[0]);
      ReachableInv(ttl, Next(ttl, s, calls[0]).0, calls[1..]);
    }
  }

  /** The final agent completes at most once per thread and process, whatever is called in
      whatever order, and only in a resume of a thread that was waiting at the approval, in
      time, and not answered before; once answered it is not even started again. */
  lemma FinalAtMostOnce(ttl: real, start: Service, calls: seq<Call>, c: Call, t: Thread)
    requires FreshProcess(start) && t in Next(ttl, After(ttl, start, calls), c).0.graphs
    ensures var s, n := After(ttl, start, calls), Next(ttl, After(ttl, start, calls), c).0;
            var before := NewRun(s, t);
            && n.graphs[t].finalDone <= 1
            && (n.graphs[t].finalStarts > before.finalStarts ==> c.Resume? && c.thread == t && Advances(s, c, ttl))
            && (n.graphs[t].finalDone > before.finalDone ==> t !in s.history && t in n.history)
            && (t in s.history ==>
                  n.graphs[t].finalStarts == before.finalStarts && n.graphs[t].finalDone == before.finalDone)
  {
    ReachableInv(ttl, start, calls);
    OneCall(ttl, After(ttl, start, calls), c, t);
  }

  /** A run from the start leaves all counts as they were. */
  lemma RunCounts(s: Service, u: Thread, x: Script, now: real, note: bool, t: Thread)
    requires t in AfterRun(s, u, x, now, note).0.graphs
    ensures var n := AfterRun(s, u, x, now, note).0;
            && n.graphs[t].finalStarts == NewRun(s, t).finalStarts && n.graphs[t].finalDone == NewRun(s, t).finalDone
            && n.history == s.history
  {
    NoReviewNoFinal(NewRun(s, u), x);
  }

  lemma ResumeCounts(s: Service, c: Call, ttl: real, t: Thread)
    requires c.Resume? && t in AfterResume(s, c, ttl).0.graphs
    ensures var n, before := AfterResume(s, c, ttl).0, NewRun(s, t);
            && (c.thread != t || !Advances(s, c, ttl) ==>
                  n.graphs[t].finalStarts == before.finalStarts && n.graphs[t].finalDone == before.finalDone)
            && (n.graphs[t].finalDone != before.finalDone ==> t in n.history)
  {
    if Advances(s, c, ttl) {
      ReviewRunsFinal(s.graphs[c.thread], c.x, Review(c.approved, c.feedback));
    }
  }

  lemma OneCall(ttl: real, s: Service, c: Call, t: Thread)
    requires Inv(s) && t in Next(ttl, s, c).0.graphs
    ensures var n, before := Next(ttl, s, c).0, NewRun(s, t);
            && n.graphs[t].finalDone <= 1
            && (n.graphs[t].finalStarts > before.finalStarts ==> c.Resume? && c.thread == t && Advances(s, c, ttl))
            && (n.graphs[t].finalDone > before.finalDone ==> t !in s.history && t in n.history)
            && (t in s.history ==>
                  n.graphs[t].finalStarts == before.finalStarts && n.graphs[t].finalDone == before.finalDone)
  {
    StepKeepsInv(ttl, s, c);
    match c
    case Execute(u, x, now, ok) => if ok { RunCounts(s, u, x, now, true, t); }
    case Stream(u, x, now, ok, gone) => if ok { RunCounts(s, u, x, now, !gone, t); }
    case Resume(_, _, _, _, _, _) => ResumeCounts(s, c, ttl, t);
  }

  /** Runs of the thread's final agent that raise. */
  function FailedFinals(ttl: real, s: Service, calls: seq<Call>, t: Thread): nat
    decreases |calls|
  {
    if calls == [] then 0
    else
      var c := calls[0];
      (if c.thread == t && Advances(s, c, ttl) && c.x.raisesAt.FinalAgent? then 1 else 0)
      + FailedFinals(ttl, Next(ttl, s, c).0, calls[1..], t)
  }

  /** Starts of the thread's final agent that did not complete. */
  function Unfinished(s: Service, t: Thread): int {
    NewRun(s, t).finalStarts - NewRun(s, t).finalDone
  }

  lemma RunAccounts(s: Service, u: Thread, x: Script, now: real, note: bool, t: Thread)
    ensures Unfinished(AfterRun(s, u, x, now, note).0, t) == Unfinished(s, t)
  {
    NoReviewNoFinal(NewRun(s, u), x);
  }

  lemma ResumeAccounts(s: Service, c: Call, ttl: real, t: Thread)
    requires c.Resume?
    ensures Unfinished(AfterResume(s, c, ttl).0, t)
         == Unfinished(s, t) + if c.thread == t && Advances(s, c, ttl) && c.x.raisesAt.FinalAgent? then 1 else 0
  {
    if Advances(s, c, ttl) {
      ReviewRunsFinal(s.graphs[c.thread], c.x, Review(c.approved, c.feedback));
    }
  }

  lemma OneCallAccounts(ttl: real, s: Service, c: Call, t: Thread)
    ensures Unfinished(Next(ttl, s, c).0, t)
         == Unfinished(s, t) + if c.thread == t && Advances(s, c, ttl) && c.x.raisesAt.FinalAgent? then 1 else 0
  {
    match c
    case Execute(u, x, now, ok) => RunAccounts(s, u, x, now, true, t);
    case Stream(u, x, now, ok, gone) => RunAccounts(s, u, x, now, !gone, t);
    case Resume(_, _, _, _, _, _) => ResumeAccounts(s, c, ttl, t);
  }

  lemma {:induction false} RunsAccount(ttl: real, s: Service, calls: seq<Call>, t: Thread)
    ensures Unfinished(After(ttl, s, calls), t) == Unfinished(s, t) + FailedFinals(ttl, s, calls, t)
    decreases |calls|
  {
    if calls == [] {
    } else {
      OneCallAccounts(ttl, s, calls[0], t);
      RunsAccount(ttl, Next(ttl, s, calls[0]).0, calls[1..], t);
    }
  }

  /** The final agent is started once for every time it raises and at most once more: it is
      started more than once exactly when one run of it that raised was followed by another. */
  lemma StartsAreAccountedFor(ttl: real, start: Service, calls: seq<Call>, t: Thread)
    requires FreshProcess(start)
    ensures var g, failed := NewRun(After(ttl, start, calls), t), FailedFinals(ttl, start, calls, t);
            && failed <= g.finalStarts <= failed + 1
            && g.finalStarts == failed + g.finalDone
            && (g.finalStarts > 1 <==> failed > 1 || (failed == 1 && g.finalDone == 1))
  {
    ReachableInv(ttl, start, calls);
    RunsAccount(ttl, start, calls, t);
  }

  /** A plan that is let through and raises nowhere waits for its review. */
  lemma PlanWaits(starts: nat, done: nat, x: Script)
    requires x.allowed && x.raisesAt.Done?
    ensures var (g, e) := Drive(Begin(starts, done), x, NoReview);
            e == Interrupted && g.next.HumanApproval? && g.finalStarts == starts && g.finalDone == done
  {
    AllowedRun(Begin(starts, done), x);
  }

  /** It does happen: planned anew after its final agent has raised, a thread runs it again. */
  lemma FinalCanStartTwice(ttl: real, t: Thread, good: Script, bad: Script)
    requires good.allowed && good.raisesAt.Done? && bad.raisesAt.FinalAgent? && ttl >= 0.0
    ensures var plan := Execute(t, good, 1.0, true);
            var s2 := Next(ttl, Next(ttl, EMPTY, plan).0, Resume(t, true, "", bad, 1.0, true)).0;
            var s4 := Next(ttl, Next(ttl, s2, plan).0, Resume(t, true, "", good, 1.0, true)).0;
            NewRun(s4, t).finalStarts == 2 && NewRun(s4, t).finalDone == 1
  {
    var plan := Execute(t, good, 1.0, true);
    PlanWaits(0, 0, good);
    var s1 := Next(ttl, EMPTY, plan).0;
    ReviewRunsFinal(s1.graphs[t], bad, Review(true, ""));
    var s2 := Next(ttl, s1, Resume(t, true, "", bad, 1.0, true)).0;
    assert NewRun(s2, t) == Begin(1, 0);
    PlanWaits(1, 0, good);
    var s3 := Next(ttl, s2, plan).0;
    ReviewRunsFinal(s3.graphs[t], good, Review(true, ""));
  }

  // ---------- what callers are told ----------

  /** The script raises at none of these nodes. */
  predicate Clear(x: Script, nodes: set<Node>) {
    x.raisesAt !in nodes
  }

  lemma AllowedRun(g: Graph, x: Script)
    requires g.next.Supervisor? && x.allowed
    ensures var (h, e) := Drive(g, x, NoReview);
            if Clear(x, {Supervisor, Specialists, Critic, Itinerary}) then
              e.Interrupted? && h == g.(next := HumanApproval, status := WAITING_FOR_APPROVAL, itinerary := x.itinerary)
            else e.Raised? && h.next == x.raisesAt
  {
    if x.raisesAt != Supervisor {
      var g1 := NodeStep(g, x, NoReview);
      assert Drive(g, x, NoReview) == Drive(g1, x, NoReview);
      if x.raisesAt != Specialists {
        var g2 := NodeStep(g1, x, NoReview);
        assert Drive(g1, x, NoReview) == Drive(g2, x, NoReview);
        if x.raisesAt != Critic {
          var g3 := NodeStep(g2, x, NoReview);
          assert Drive(g2, x, NoReview) == Drive(g3, x, NoReview);
          if x.raisesAt != Itinerary {
            var g4 := NodeStep(g3, x, NoReview);
            assert Drive(g3, x, NoReview) == Drive(g4, x, NoReview) == (g4, Interrupted);
          }
        }
      }
    }
  }

  lemma BlockedRun(g: Graph, x: Script)
    requires g.next.Supervisor? && !x.allowed
    ensures var (h, e) := Drive(g, x, NoReview);
            if Clear(x, {Supervisor, GuardrailBlocked}) then e.Finished? && h == g.(next := Done, status := BLOCKED)
            else e.Raised? && h.next == x.raisesAt
  {
    if x.raisesAt != Supervisor {
      var g1 := NodeStep(g, x, NoReview);
      assert Drive(g, x, NoReview) == Drive(g1, x, NoReview);
    }
  }

  /** What a call that starts a run answers and leaves behind: the draft to review, the refusal of
      a blocked query, or the failure of a node the run reaches. */
  lemma RunReplies(ttl: real, s: Service, c: Call)
    requires c.Execute? || (c.Stream? && !c.gone)
    ensures var (n, reply) := Next(ttl, s, c);
            && (!c.permitted ==> reply == NotFound && n == s)
            && (c.permitted ==>
                  && n.history == s.history && c.thread in n.graphs
                  && (forall t | t in s.graphs && t != c.thread :: t in n.graphs && n.graphs[t] == s.graphs[t])
                  && var next := n.graphs[c.thread].next;
                     if c.x.allowed && Clear(c.x, {Supervisor, Specialists, Critic, Itinerary}) then
                       && reply == Answer(Payload(WAITING_FOR_APPROVAL, c.x.itinerary, false, "", ""))
                       && next == HumanApproval && n.timestamps == s.timestamps[c.thread := c.now]
                     else if !c.x.allowed && Clear(c.x, {Supervisor, GuardrailBlocked}) then
                       && reply == Answer(Payload(BLOCKED, "", false, "", ""))
                       && next == Done && n.timestamps == s.timestamps
                     else reply == Failure && next == c.x.raisesAt && n.timestamps == s.timestamps)
  {
    if c.x.allowed {
      AllowedRun(NewRun(s, c.thread), c.x);
    } else {
      BlockedRun(NewRun(s, c.thread), c.x);
    }
  }

  /** A client that has gone hears nothing, and nothing is noted for it. */
  lemma GoneReplies(ttl: real, s: Service, c: Call)
    requires c.Stream? && c.gone && c.permitted
    ensures var (n, reply) := Next(ttl, s, c);
            var (m, heard) := Next(ttl, s, c.(gone := false));
            && n == m.(timestamps := s.timestamps)
            && reply == if heard.Answer? then Unheard else heard
  {
    NoReviewNoFinal(NewRun(s, c.thread), c.x);
  }

  /** What a resume answers, case by case, in any reachable state. */
  lemma ResumeReplies(ttl: real, s: Service, c: Call)
    requires Inv(s) && c.Resume?
    ensures var (n, reply), t := Next(ttl, s, c), c.thread;
            if !c.permitted then reply == NotFound && n == s
            else if t in s.history then reply == Answer(s.history[t]) && n == s
            else if t !in s.graphs then reply == NotFound && n == s
            else
              var g := s.graphs[t];
              if g.next == Done && g.status == COMPLETED then
                reply == Answer(Payload(COMPLETED, g.itinerary, g.approved, g.feedback, g.answer))
                && n == s.(history := s.history[t := Payload(COMPLETED, g.itinerary, g.approved, g.feedback, g.answer)])
              else if g.next != HumanApproval then reply == InvalidState && n == s
              else if t in s.timestamps && s.timestamps[t] != 0.0 && c.now - s.timestamps[t] > ttl then
                reply == Expired && n == s
              else if c.x.raisesAt == HumanApproval || c.x.raisesAt == FinalAgent then
                reply == Failure && n.history == s.history && n.timestamps == s.timestamps
              else
                var payload := Payload(COMPLETED, g.itinerary, c.approved, c.feedback, c.x.answer);
                && reply == Answer(payload) && n.history == s.history[t := payload]
                && n.timestamps == s.timestamps - {t}
  {
    assert c.thread in s.graphs ==> Shaped(s.graphs[c.thread]);
    if Advances(s, c, ttl) {
      ReviewRunsFinal(s.graphs[c.thread], c.x, Review(c.approved, c.feedback));
    }
  }

  /** Once answered, a thread gives the same answer to every later resume, whatever its
      arguments and whatever was called in between, and resuming changes nothing any more. */
  lemma {:induction false} ReplayIsStable(ttl: real, s: Service, calls: seq<Call>, c: Call)
    requires c.Resume? && c.thread in s.history
    ensures var n := After(ttl, s, calls);
            && c.thread in n.history && n.history[c.thread] == s.history[c.thread]
            && Next(ttl, n, c) == (n, if c.permitted then Answer(s.history[c.thread]) else NotFound)
    decreases |calls|
  {
    if calls == [] {
    } else {
      ReplayIsStable(ttl, Next(ttl, s, calls[0]).0, calls[1..], c);
    }
  }

  /** A successful resume answers COMPLETED with the caller's own verdict on the draft it was
      shown, approved or not. */
  lemma ResumeCompletes(ttl: real, s: Service, c: Call)
    requires Advances(s, c, ttl) && Next(ttl, s, c).1.Answer?
    ensures Next(ttl, s, c).1
         == Answer(Payload(COMPLETED, s.graphs[c.thread].itinerary, c.approved, c.feedback, c.x.answer))
  {
    ReviewRunsFinal(s.graphs[c.thread], c.x, Review(c.approved, c.feedback));
  }

  /** Resume touches a checkpoint only when it advances it: blocked, expired, running, unknown
      and already answered threads are left as they are. */
  lemma ResumeElseInert(ttl: real, s: Service, c: Call)
    requires Inv(s) && c.Resume? && !Advances(s, c, ttl)
    ensures var (n, reply) := Next(ttl, s, c);
            && n.graphs == s.graphs && n.timestamps == s.timestamps
            && (c.permitted && c.thread !in s.history && c.thread in s.graphs ==>
                  var g := s.graphs[c.thread];
                  reply == if g.next.HumanApproval? then Expired
                           else if g.status == COMPLETED then Answer(Serialize(g)) else InvalidState)
  {
    assert c.thread in s.graphs ==> Shaped(s.graphs[c.thread]);
  }

  // ---------- the time limit ----------

  /** The latest interrupt of a thread in this process: never, or when, and whether its time was
      noted (the client of a stream may be gone by then). */
  datatype Interrupt = Never | At(time: real, noted: bool)

  /** The call ends a run of thread t at the interrupt. */
  predicate Interrupts(s: Service, c: Call, t: Thread) {
    !c.Resume? && c.thread == t && c.permitted && Drive(NewRun(s, t), c.x, NoReview).1.Interrupted?
  }

  predicate Notes(c: Call) {
    c.Execute? || (c.Stream? && !c.gone)
  }

  function LastInterrupt(ttl: real, s: Service, calls: seq<Call>, t: Thread): Interrupt
    decreases |calls|
  {
    if calls == [] then Never
    else
      var c := calls[0];
      var later := LastInterrupt(ttl, Next(ttl, s, c).0, calls[1..], t);
      if later.At? then later else if Interrupts(s, c, t) then At(c.now, Notes(c)) else Never
  }

  function LastNoted(ttl: real, s: Service, calls: seq<Call>, t: Thread): Interrupt
    decreases |calls|
  {
    if calls == [] then Never
    else
      var c := calls[0];
      var later := LastNoted(ttl, Next(ttl, s, c).0, calls[1..], t);
      if later.At? then later else if Interrupts(s, c, t) && Notes(c) then At(c.now, true) else Never
  }

  lemma {:induction false} HistoryStays(ttl: real, s: Service, calls: seq<Call>, t: Thread)
    requires t in s.history
    ensures t in After(ttl, s, calls).history
    decreases |calls|
  {
    if calls == [] {
    } else {
      HistoryStays(ttl, Next(ttl, s, calls[0]).0, calls[1..], t);
    }
  }

  function TimeOf(s: Service, t: Thread): Interrupt {
    if t in s.timestamps then At(s.timestamps[t], true) else Never
  }

  /** While a thread is unanswered, its time is that of its latest noted interrupt. */
  lemma {:induction false} TimesAreNotes(ttl: real, s: Service, calls: seq<Call>, t: Thread)
    requires t !in After(ttl, s, calls).history
    ensures TimeOf(After(ttl, s, calls), t)
         == if LastNoted(ttl, s, calls, t).At? then LastNoted(ttl, s, calls, t) else TimeOf(s, t)
    decreases |calls|
  {
    if calls == [] {
    } else {
      var n := Next(ttl, s, calls[0]).0;
      if t in n.history {
        HistoryStays(ttl, n, calls[1..], t);
      }
      TimesAreNotes(ttl, n, calls[1..], t);
    }
  }

  /** Clock readings are positive and later calls on a thread find a later time. */
  ghost predicate Clocked(calls: seq<Call>, t: Thread) {
    && (forall i | 0 <= i < |calls| && calls[i].thread == t :: calls[i].now > 0.0)
    && forall i, j | 0 <= i < j < |calls| && calls[i].thread == calls[j].thread == t :: calls[i].now < calls[j].now
  }

  /** Some call on t has read the clock at that time. */
  ghost predicate ReadAt(calls: seq<Call>, t: Thread, time: real) {
    exists i :: 0 <= i < |calls| && calls[i].thread == t && calls[i].now == time
  }

  /** The latest interrupt, if noted, is the latest noted one; otherwise that one, if any, is earlier. */
  lemma {:induction false} NotesAndInterrupts(ttl: real, s: Service, calls: seq<Call>, t: Thread)
    requires Clocked(calls, t)
    ensures var last, noted := LastInterrupt(ttl, s, calls, t), LastNoted(ttl, s, calls, t);
            && (last.Never? ==> noted.Never?)
            && (last.At? && last.noted ==> noted == last)
            && (last.At? && !last.noted && noted.At? ==> noted.time < last.time)
            && (last.At? ==> ReadAt(calls, t, last.time))
            && (noted.At? ==> noted.time > 0.0)
    decreases |calls|
  {
    if calls == [] {
    } else {
      var n, rest := Next(ttl, s, calls[0]).0, calls[1..];
      NotesAndInterrupts(ttl, n, rest, t);
      var later := LastInterrupt(ttl, n, rest, t);
      if later.At? {
        var i :| 0 <= i < |rest| && rest[i].thread == t && rest[i].now == later.time;
        assert calls[i + 1] == rest[i];
      }
    }
  }

  /** The thread waits for its review and has never been answered. */
  predicate Waiting(s: Service, t: Thread) {
    t in s.graphs && s.graphs[t].next.HumanApproval? && t !in s.history
  }

  predicate ResumeOf(c: Call, t: Thread) {
    c.Resume? && c.thread == t && c.permitted
  }

  /** When a waiting thread is let on, exactly: no interrupt of it was noted in this process, or
      the one noted last is not too old. */
  lemma LetOnIff(ttl: real, start: Service, calls: seq<Call>, t: Thread, c: Call)
    requires FreshProcess(start) && Clocked(calls, t) && ResumeOf(c, t) && Waiting(After(ttl, start, calls), t)
    ensures var noted := LastNoted(ttl, start, calls, t);
            Advances(After(ttl, start, calls), c, ttl) <==> noted.Never? || c.now - noted.time <= ttl
  {
    TimesAreNotes(ttl, start, calls, t);
    NotesAndInterrupts(ttl, start, calls, t);
  }

  function SomeResume(t: Thread, now: real): Call {
    Resume(t, true, "", Script(true, Done, "", ""), now, true)
  }

  /** The time limit holds as documented, counted from the interrupt that waits, exactly when
      the time of that interrupt was noted. */
  lemma TimeLimitIff(ttl: real, start: Service, calls: seq<Call>, t: Thread)
    requires FreshProcess(start) && Clocked(calls, t) && Waiting(After(ttl, start, calls), t)
    requires LastInterrupt(ttl, start, calls, t).At?
    ensures var n, last := After(ttl, start, calls), LastInterrupt(ttl, start, calls, t);
            (forall c | ResumeOf(c, t) :: Advances(n, c, ttl) <==> c.now - last.time <= ttl) <==> last.noted
  {
    var n, last, noted :=
      After(ttl, start, calls), LastInterrupt(ttl, start, calls, t), LastNoted(ttl, start, calls, t);
    NotesAndInterrupts(ttl, start, calls, t);
    if last.noted {
      forall c | ResumeOf(c, t) ensures Advances(n, c, ttl) <==> c.now - last.time <= ttl {
        LetOnIff(ttl, start, calls, t, c);
      }
    } else {
      var late := SomeResume(t, last.time + ttl + if noted.At? then 0.0 else 1.0);
      LetOnIff(ttl, start, calls, t, late);
      assert ResumeOf(late, t);
    }
  }

  /** A waiting thread never expires exactly when no interrupt of it was noted in this process. */
  lemma NeverExpiresIff(ttl: real, start: Service, calls: seq<Call>, t: Thread)
    requires FreshProcess(start) && Clocked(calls, t) && Waiting(After(ttl, start, calls), t)
    ensures var n, noted := After(ttl, start, calls), LastNoted(ttl, start, calls, t);
            (forall c | ResumeOf(c, t) :: Advances(n, c, ttl)) <==> noted.Never?
  {
    var n, noted := After(ttl, start, calls), LastNoted(ttl, start, calls, t);
    if noted.Never? {
      forall c | ResumeOf(c, t) ensures Advances(n, c, ttl) {
        LetOnIff(ttl, start, calls, t, c);
      }
    } else {
      var late := SomeResume(t, noted.time + ttl + 1.0);
      LetOnIff(ttl, start, calls, t, late);
      assert ResumeOf(late, t);
    }
  }

  /** Over whole runs: if the interrupt a thread waits at was noted, the final agent is run only
      within the time limit of that interrupt, whatever happened to other threads or before. */
  lemma ResumedInTime(ttl: real, start: Service, calls: seq<Call>, c: Call)
    requires FreshProcess(start) && Clocked(calls, c.thread) && Advances(After(ttl, start, calls), c, ttl)
    requires var last := LastInterrupt(ttl, start, calls, c.thread); last.At? && last.noted
    ensures c.now - LastInterrupt(ttl, start, calls, c.thread).time <= ttl
  {
    LetOnIff(ttl, start, calls, c.thread, c);
    NotesAndInterrupts(ttl, start, calls, c.thread);
  }

  /** A stream whose client has gone leaves an unanswered thread, no interrupt of which was noted,
      without a time, and then no delay is too long. */
  lemma GoneClientNeverExpires(ttl: real, s: Service, t: Thread, x: Script, at: real, c: Call)
    requires x.allowed && x.raisesAt.Done? && t !in s.timestamps && t !in s.history && ResumeOf(c, t)
    ensures Advances(Next(ttl, s, Stream(t, x, at, true, true)).0, c, ttl)
  {
    PlanWaits(NewRun(s, t).finalStarts, NewRun(s, t).finalDone, x);
  }

  /** After an earlier, noted interrupt it is the other way round: the new draft is refused as
      soon as the old time is up. */
  lemma StaleTimeExpires(ttl: real, s: Service, t: Thread, x: Script, first: real, second: real, c: Call)
    requires x.allowed && x.raisesAt.Done? && t !in s.history && ResumeOf(c, t) && 0.0 < first < second
    ensures var n := Next(ttl, Next(ttl, s, Execute(t, x, first, true)).0, Stream(t, x, second, true, true)).0;
            && Waiting(n, t)
            && (Next(ttl, n, c) == (n, Expired) <==> c.now > first + ttl)
  {
    var n1 := Next(ttl, s, Execute(t, x, first, true)).0;
    PlanWaits(NewRun(s, t).finalStarts, NewRun(s, t).finalDone, x);
    PlanWaits(NewRun(n1, t).finalStarts, NewRun(n1, t).finalDone, x);
    var n := Next(ttl, n1, Stream(t, x, second, true, true)).0;
    if c.now <= first + ttl {
      assert Advances(n, c, ttl);
      assert Next(ttl, n, c).1 != Expired;
    }
  }

  /** Nor does a thread that was waiting when the process restarted. */
  lemma RestartNeverExpires(ttl: real, s: Service, c: Call)
    requires FreshProcess(s) && c.Resume? && c.permitted
    requires c.thread in s.graphs && s.graphs[c.thread].next.HumanApproval?
    ensures Advances(s, c, ttl)
  {
  }

  /** An answered thread can be planned anew, but the new draft can never be approved: however
      it is resumed, it keeps waiting and the old answer comes back. */
  lemma {:induction false} ReplanNeverApproved(ttl: real, s: Service, calls: seq<Call>)
    requires Inv(s) && forall i | 0 <= i < |calls| :: calls[i].Resume?
    ensures forall t | t in s.history ::
              t in After(ttl, s, calls).graphs && After(ttl, s, calls).graphs[t] == s.graphs[t]
    decreases |calls|
  {
    if calls == [] {
    } else {
      StepKeepsInv(ttl, s, calls[0]);
      ReplanNeverApproved(ttl, Next(ttl, s, calls[0]).0, calls[1..]);
    }
  }
}
