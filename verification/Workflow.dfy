/** The travel workflow graph: nodes, edges, the status each node writes and the interrupt at
    human approval.  What agents answer, whether the guardrail lets the query pass and where a
    node raises come from a script. */
module Workflow {

  datatype Node = Supervisor | GuardrailBlocked | Specialists | Critic | Itinerary | HumanApproval | FinalAgent | Done

  datatype Status = RUNNING | BLOCKED | WAITING_FOR_APPROVAL | APPROVED | REVISION_REQUESTED | COMPLETED

  datatype Review = NoReview | Review(approved: bool, feedback: string)

  /** raisesAt Done: no node raises.  The same point serves for a run cut off by a client that
      disconnects. */
  datatype Script = Script(allowed: bool, raisesAt: Node, itinerary: string, answer: string)

  /** Checkpoint of one thread.  finalStarts and finalDone count runs of the final agent. */
  datatype Graph = Graph(next: Node, status: Status, itinerary: string, approved: bool, feedback: string,
                         answer: string, finalStarts: nat, finalDone: nat)

  datatype Ending = Finished | Interrupted | Raised

  /** The initial state of a new run over what the thread had before. */
  function Begin(starts: nat, done: nat): Graph {
    Graph(Supervisor, RUNNING, "", false, "", "", starts, done)
  }

  function RouteFromSupervisor(allowed: bool): Node {
    if !allowed then GuardrailBlocked else Specialists
  }

  /** What a node that does not raise or interrupt leaves behind, along the edge it takes. */
  function NodeStep(g: Graph, x: Script, r: Review): Graph
    requires g.next.HumanApproval? ==> r.Review?
  {
    match g.next
    case Supervisor => g.(next := RouteFromSupervisor(x.allowed), status := if x.allowed then RUNNING else BLOCKED)
    case GuardrailBlocked => g.(next := Done, status := BLOCKED)
    case Specialists => g.(next := Critic)
    case Critic => g.(next := Itinerary)
    case Itinerary => g.(next := HumanApproval, status := WAITING_FOR_APPROVAL, itinerary := x.itinerary)
    case HumanApproval =>
      g.(next := FinalAgent, status := if r.approved then APPROVED else REVISION_REQUESTED,
         approved := r.approved, feedback := r.feedback)
    case FinalAgent => g.(next := Done, status := COMPLETED, answer := x.answer, finalDone := g.finalDone + 1)
    case Done => g
  }

  function Left(n: Node): nat {
    match n
    case Supervisor => 6
    case Specialists => 5
    case Critic => 4
    case Itinerary => 3
    case HumanApproval => 2
    case FinalAgent => 1
    case GuardrailBlocked => 1
    case Done => 0
  }

  function Started(g: Graph): Graph {
    if g.next.FinalAgent? then g.(finalStarts := g.finalStarts + 1) else g
  }

  /** Runs the graph until it ends, interrupts or raises; a review is for the interrupt pending. */
  function Drive(g: Graph, x: Script, r: Review): (Graph, Ending)
    decreases Left(g.next)
  {
    if g.next.Done? then (g, Finished)
    else if g.next.HumanApproval? && r.NoReview? then (g, Interrupted)
    else
      var s := Started(g);
      if x.raisesAt == g.next then (s, Raised) else Drive(NodeStep(s, x, r), x, r)
  }

  // ---------- the shape of every checkpoint ----------

  /** Status and position always agree.  In particular a thread has stopped only when blocked or
      completed, and waits exactly at the approval. */
  ghost predicate Shaped(g: Graph) {
    match g.next
    case Supervisor => g.status == RUNNING
    case Specialists => g.status == RUNNING
    case Critic => g.status == RUNNING
    case Itinerary => g.status == RUNNING
    case GuardrailBlocked => g.status == BLOCKED
    case HumanApproval => g.status == WAITING_FOR_APPROVAL
    case FinalAgent => g.status == if g.approved then APPROVED else REVISION_REQUESTED
    case Done => g.status == BLOCKED || g.status == COMPLETED
  }

  /** Without a review the final agent is out of reach: a run stops before it. */
  lemma {:induction false} NoReviewNoFinal(g: Graph, x: Script)
    requires Shaped(g) && !g.next.FinalAgent?
    ensures var (h, e) := Drive(g, x, NoReview);
            && Shaped(h) && h.finalStarts == g.finalStarts && h.finalDone == g.finalDone && !h.next.FinalAgent?
            && (e.Interrupted? <==> h.next.HumanApproval?)
            && (e.Finished? <==> h.next.Done?)
            && (e.Finished? && !g.next.Done? ==> h.status == BLOCKED)
    decreases Left(g.next)
  {
    if !g.next.Done? && !g.next.HumanApproval? && x.raisesAt != g.next {
      NoReviewNoFinal(NodeStep(g, x, NoReview), x);
    }
  }

  /** A reviewed run always goes on to the final agent, approved or not, and starts it once. */
  lemma ReviewRunsFinal(g: Graph, x: Script, r: Review)
    requires g.next.HumanApproval? && r.Review?
    ensures var (h, e) := Drive(g, x, r);
            && (Shaped(g) ==> Shaped(h))
            && (e.Finished? <==> !e.Raised?)
            && (e.Raised? <==> x.raisesAt.HumanApproval? || x.raisesAt.FinalAgent?)
            && (e.Finished? <==> h.next.Done?)
            && (e.Finished? ==> h.status == COMPLETED && h.approved == r.approved && h.feedback == r.feedback &&
                                h.answer == x.answer && h.itinerary == g.itinerary)
            && h.finalDone == g.finalDone + (if e.Finished? then 1 else 0)
            && h.finalStarts == g.finalStarts + (if x.raisesAt.HumanApproval? then 0 else 1)
  {
    if !x.raisesAt.HumanApproval? {
      var f := NodeStep(g, x, r);
      assert Drive(g, x, r) == Drive(f, x, r);
      var s := Started(f);
      if x.raisesAt.FinalAgent? {
        assert Drive(f, x, r) == (s, Raised);
      } else {
        var d := NodeStep(s, x, r);
        assert Drive(f, x, r) == Drive(d, x, r) == (d, Finished);
      }
    }
  }
}
