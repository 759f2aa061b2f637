/** The service object: pending approval times and answered approvals, updated around the graph
    runs; `graphs` is the checkpointer. */
module TravelServices {
  import opened Workflow
  import opened Approval

  class TravelService {
    const approvalTtl: real
    var graphs: map<Thread, Graph>
    var approvalTimestamps: map<Thread, real>
    var approvalHistory: map<Thread, Payload>

    ghost function View(): Service
      reads this
    {
      Service(graphs, approvalTimestamps, approvalHistory)
    }

    constructor (approvalTtl: real, checkpoints: map<Thread, Graph>)
      ensures this.approvalTtl == approvalTtl && View() == Service(checkpoints, map[], map[])
    {
      this.approvalTtl := approvalTtl;
      graphs, approvalTimestamps, approvalHistory := checkpoints, map[], map[];
    }

    /** `ainvoke(initial_state)`: earlier values of the thread are overwritten. */
    method InvokeNew(thread: Thread, x: Script) returns (ending: Ending)
      modifies this`graphs
      ensures var (g, e) := Drive(NewRun(old(View()), thread), x, NoReview);
              graphs == old(graphs)[thread := g] && ending == e
    {
      var initial := Begin(0, 0);
      if thread in graphs {
        initial := Begin(graphs[thread].finalStarts, graphs[thread].finalDone);
      }
      var (g, e) := Drive(initial, x, NoReview);
      graphs := graphs[thread := g];
      ending := e;
    }

    method ExecuteTravelPlan(thread: Thread, x: Script, now: real, permitted: bool) returns (reply: Reply)
      modifies this
      ensures (View(), reply) == Next(approvalTtl, old(View()), Execute(thread, x, now, permitted))
      ensures permitted && x.allowed && Clear(x, {Supervisor, Specialists, Critic, Itinerary}) ==>
                reply == Answer(Payload(WAITING_FOR_APPROVAL, x.itinerary, false, "", "")) &&
                approvalTimestamps == old(approvalTimestamps)[thread := now]
      ensures permitted && !x.allowed && Clear(x, {Supervisor, GuardrailBlocked}) ==>
                reply == Answer(Payload(BLOCKED, "", false, "", "")) && approvalTimestamps == old(approvalTimestamps)
      ensures approvalHistory == old(approvalHistory)
    {
      if !permitted {
        return NotFound;
      }
      RunReplies(approvalTtl, View(), Execute(thread, x, now, permitted));
      var ending := InvokeNew(thread, x);
      if ending == Raised {
        return Failure;
      }
      var requiresApproval := ending == Interrupted;
      if requiresApproval {
        approvalTimestamps := approvalTimestamps[thread := now];
      }
      return Answer(Serialize(graphs[thread]));
    }

    /** The stream looks for the interrupt in the checkpoint, after a last look at the client. */
    method StreamTravelEvents(thread: Thread, x: Script, now: real, permitted: bool, gone: bool) returns (reply: Reply)
      requires thread in graphs ==> Shaped(graphs[thread])
      modifies this
      ensures (View(), reply) == Next(approvalTtl, old(View()), Stream(thread, x, now, permitted, gone))
    {
      if !permitted {
        return NotFound;
      }
      NoReviewNoFinal(NewRun(View(), thread), x);
      var ending := InvokeNew(thread, x);
      if ending == Raised {
        return Failure;
      }
      if gone {
        return Unheard;
      } else {
        var state := graphs[thread];
        if state.next == HumanApproval || state.status == WAITING_FOR_APPROVAL {
          approvalTimestamps := approvalTimestamps[thread := now];
        }
      }
      return Answer(Serialize(graphs[thread]));
    }

    method ResumeTravelPlan(thread: Thread, approved: bool, feedback: string, x: Script, now: real, permitted: bool)
      returns (reply: Reply)
      modifies this
      ensures (View(), reply) == Next(approvalTtl, old(View()), Resume(thread, approved, feedback, x, now, permitted))
    {
      if !permitted {
        return NotFound;
      }
      if thread in approvalHistory {
        return Answer(approvalHistory[thread]);
      }
      if thread !in graphs {
        return NotFound;
      }
      var state := graphs[thread];
      if state.next == Done && state.status in {APPROVED, REVISION_REQUESTED, COMPLETED} {
        approvalHistory := approvalHistory[thread := Serialize(state)];
        return Answer(Serialize(state));
      }
      if state.next != HumanApproval {
        return InvalidState;
      }
      if thread in approvalTimestamps {
        var createdAt := approvalTimestamps[thread];
        if createdAt != 0.0 && now - createdAt > approvalTtl {
          return Expired;
        }
      }
      var (g, ending) := Drive(state, x, Review(approved, feedback));
      graphs := graphs[thread := g];
      if ending == Raised {
        return Failure;
      }
      approvalHistory := approvalHistory[thread := Serialize(g)];
      approvalTimestamps := approvalTimestamps - {thread};
      return Answer(Serialize(g));
    }
  }
}
