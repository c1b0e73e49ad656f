/** What a forced pass calls, in which order, and how it ends. */
module Forcing {
  import opened Words
  import opened Stack
  import opened Protocol
  import opened Passes

  predicate GoesOn(reply: Reply, frames: seq<Activation>, bottom: Bottom) {
    !Installs(reply) && Passed(reply) && Advances(frames, bottom)
  }

  /** For every visited frame: the stop function, then the personality of the same frame if it has one. */
  function VisitCalls(env: Env, forced: Forced, frames: seq<Activation>, visits: seq<Visit>): seq<Call>
    requires |visits| <= |frames|
    decreases |visits|
  {
    if visits == [] then []
    else
      FrameCalls(env, forced, frames[0], visits[0]) + VisitCalls(env, forced, frames[1..], visits[1..])
  }

  function FrameCalls(env: Env, forced: Forced, a: Activation, visit: Visit): seq<Call> {
    var routine := RoutineOf(env.m, a.info);
    [StopCall(env, forced, ForcedActions(), ContextOf(a))]
    + if visit.reply.Replied? && routine.Ok? && routine.value.Some?
      then [CallOf(env, routine.value.value, ForcedActions(), a)] else []
  }

  /** The stop function once more when every visited frame was left behind: about the next frame, or about the end. */
  function LastCall(env: Env, forced: Forced, frames: seq<Activation>, bottom: Bottom, visits: seq<Visit>): seq<Call>
    requires |visits| <= |frames|
    decreases |visits|
  {
    if visits == [] then
      if frames != [] then [StopCall(env, forced, ForcedActions(), ContextOf(frames[0]))]
      else if bottom.EndOfStack? then
        [StopCall(env, forced, EndActions(), Context(bottom.image, bottom.relation, None))]
      else []
    else if GoesOn(visits[0].reply, frames, bottom) then LastCall(env, forced, frames[1..], bottom, visits[1..])
    else []
  }

  function CallsOf(events: seq<Event>): (r: seq<Call>)
    ensures |r| == |events| && forall i | 0 <= i < |r| :: r[i] == events[i].call
  {
    seq(|events|, i requires 0 <= i < |events| => events[i].call)
  }

  /** What a pass adds to the log. */
  function Added(before: seq<Event>, after: seq<Event>): seq<Event> {
    if |before| <= |after| then after[|before|..] else []
  }

  /** Stop answers that let a pass go on: all but possibly the last. */
  predicate AcceptedBeforeLast(events: seq<Event>) {
    forall i | 0 <= i < |events| - 1 :: events[i].call.Stop? ==> events[i].answer.reason == NONE
  }

  predicate AllAccepted(events: seq<Event>) {
    forall i | 0 <= i < |events| :: events[i].call.Stop? ==> events[i].answer.reason == NONE
  }

  /** The pass ended with the stop function accepting the end of the stack. */
  predicate EndAccepted(events: seq<Event>) {
    events != []
    && var last := events[|events| - 1];
       last.call.Stop? && last.call.context.frame == None && last.answer.reason == NONE
  }

  lemma AddedIs(before: seq<Event>, more: seq<Event>)
    ensures before <= before + more && Added(before, before + more) == more
  {
  }

  /** The exchange with one frame that accepted the stop function: first the stop call, then the personality. */
  lemma FrameEvents(env: Env, log: seq<Event>, forced: Forced, a: Activation, visit: Visit)
    requires var call := StopCall(env, forced, ForcedActions(), ContextOf(a));
             var log1 := log + [Event(call, env.respond(log, call))];
             env.respond(log, call).reason == NONE && visit.reply == Ask(env, log1, a, ForcedActions()).1
    ensures var call := StopCall(env, forced, ForcedActions(), ContextOf(a));
            var log1 := log + [Event(call, env.respond(log, call))];
            var log2 := Ask(env, log1, a, ForcedActions()).0;
            var events := Added(log, log2);
            && log2 == log + events
            && CallsOf(events) == FrameCalls(env, forced, a, visit)
            && AllAccepted(events) && !EndAccepted(events)
  {
    var call := StopCall(env, forced, ForcedActions(), ContextOf(a));
    var log1 := log + [Event(call, env.respond(log, call))];
    var (log2, reply) := Ask(env, log1, a, ForcedActions());
    hide ForcedActions;
    assert log2 == log + ([Event(call, env.respond(log, call))] + log2[|log1|..]);
  }

  /** What is said of a forced pass: see `ForcedTrace`. */
  ghost predicate Traced(
    env: Env, log: seq<Event>, frames: seq<Activation>, bottom: Bottom, forced: Forced, r: Passage)
  {
    var events := Added(log, r.log);
    && |r.visits| <= |frames|
    && r.log == log + events
    && CallsOf(events) == VisitCalls(env, forced, frames, r.visits) + LastCall(env, forced, frames, bottom, r.visits)
    && AcceptedBeforeLast(events)
    && (r.outcome == Returned(END) <==> EndAccepted(events))
  }

  lemma TracedCons(
    env: Env, log: seq<Event>, log2: seq<Event>, frames: seq<Activation>, bottom: Bottom, forced: Forced, visit: Visit,
    rest: Passage)
    requires frames != [] && GoesOn(visit.reply, frames, bottom)
    requires log2 == log + Added(log, log2)
    requires CallsOf(Added(log, log2)) == FrameCalls(env, forced, frames[0], visit)
    requires AllAccepted(Added(log, log2)) && !EndAccepted(Added(log, log2))
    requires Traced(env, log2, frames[1..], bottom, forced, rest)
    ensures Traced(env, log, frames, bottom, forced, Passage(rest.log, [visit] + rest.visits, rest.outcome))
  {
    hide FrameCalls, CallsOf, AllAccepted, AcceptedBeforeLast, EndAccepted, Added;
    var events, more := Added(log, log2), Added(log2, rest.log);
    var visits := [visit] + rest.visits;
    assert rest.log == log + (events + more);
    AddedIs(log, events + more);
    EventsTogether(events, more);
    assert visits[1..] == rest.visits;
    var front := VisitCalls(env, forced, frames[1..], rest.visits);
    var last := LastCall(env, forced, frames[1..], bottom, rest.visits);
    assert VisitCalls(env, forced, frames, visits) == FrameCalls(env, forced, frames[0], visit) + front;
    assert LastCall(env, forced, frames, bottom, visits) == last;
    assert FrameCalls(env, forced, frames[0], visit) + (front + last)
           == (FrameCalls(env, forced, frames[0], visit) + front) + last;
  }

  lemma EventsTogether(events: seq<Event>, more: seq<Event>)
    requires AllAccepted(events) && !EndAccepted(events) && AcceptedBeforeLast(more)
    ensures CallsOf(events + more) == CallsOf(events) + CallsOf(more)
    ensures AcceptedBeforeLast(events + more)
    ensures EndAccepted(events + more) <==> EndAccepted(more)
  {
    if more == [] { assert events + more == events; }
  }

  /**
   * A forced pass calls the stop function exactly once for each frame it visits, immediately before the
   * personality of that frame, always with the same stop function and parameter, and never sends another mask
   * than FORCE|CLEANUP, with END only about the end of the stack. A refusal ends the pass without a further
   * call, and the pass returns END if and only if the stop function accepted the end of the stack.
   */
  lemma {:induction false} ForcedTrace(
    env: Env, log: seq<Event>, frames: seq<Activation>, bottom: Bottom, forced: Forced, depth: nat)
    ensures Traced(env, log, frames, bottom, forced, ForcedPass(env, log, frames, bottom, forced, depth))
    decreases |frames|
  {
    hide Ask, ForcedActions, EndActions, FrameCalls, InstallAt, Traced;
    if frames == [] {
      EndTrace(env, log, bottom, forced, depth);
    } else {
      var call := StopCall(env, forced, ForcedActions(), ContextOf(frames[0]));
      var answer := env.respond(log, call);
      var log1 := log + [Event(call, answer)];
      var (log2, reply) := Ask(env, log1, frames[0], ForcedActions());
      var visit := Visit(depth, ForcedActions(), reply);
      if answer.reason != NONE {
        RefusedTrace(env, log, frames, bottom, forced, depth);
      } else {
        FrameEvents(env, log, forced, frames[0], visit);
        if GoesOn(reply, frames, bottom) {
          ForcedTrace(env, log2, frames[1..], bottom, forced, depth + 1);
          TracedCons(env, log, log2, frames, bottom, forced, visit,
                     ForcedPass(env, log2, frames[1..], bottom, forced, depth + 1));
        } else {
          StoppedTrace(env, log, log2, frames, bottom, forced, visit,
                       if Installs(reply) then LeaveFrame(frames[0], reply.answer, depth) else Returned(FATAL2));
        }
      }
    }
  }

  lemma EndTrace(env: Env, log: seq<Event>, bottom: Bottom, forced: Forced, depth: nat)
    ensures Traced(env, log, [], bottom, forced, ForcedPass(env, log, [], bottom, forced, depth))
  {
    hide EndActions;
    if bottom.EndOfStack? {
      var call := StopCall(env, forced, EndActions(), Context(bottom.image, bottom.relation, None));
      AddedIs(log, [Event(call, env.respond(log, call))]);
    } else {
      AddedIs(log, []);
    }
  }

  lemma RefusedTrace(
    env: Env, log: seq<Event>, frames: seq<Activation>, bottom: Bottom, forced: Forced, depth: nat)
    requires frames != []
    requires env.respond(log, StopCall(env, forced, ForcedActions(), ContextOf(frames[0]))).reason != NONE
    ensures Traced(env, log, frames, bottom, forced, ForcedPass(env, log, frames, bottom, forced, depth))
  {
    hide ForcedActions, Ask;
    var call := StopCall(env, forced, ForcedActions(), ContextOf(frames[0]));
    AddedIs(log, [Event(call, env.respond(log, call))]);
  }

  lemma StoppedTrace(
    env: Env, log: seq<Event>, log2: seq<Event>, frames: seq<Activation>, bottom: Bottom, forced: Forced, visit: Visit,
    outcome: Outcome)
    requires frames != [] && !GoesOn(visit.reply, frames, bottom) && outcome != Returned(END)
    requires log2 == log + Added(log, log2)
    requires CallsOf(Added(log, log2)) == FrameCalls(env, forced, frames[0], visit)
    requires AllAccepted(Added(log, log2)) && !EndAccepted(Added(log, log2))
    ensures Traced(env, log, frames, bottom, forced, Passage(log2, [visit], outcome))
  {
    hide FrameCalls, CallsOf;
    assert [visit][1..] == [];
    assert VisitCalls(env, forced, frames, [visit]) == FrameCalls(env, forced, frames[0], visit);
  }

  /** How a forced pass can end: in a landing pad at the last visited frame, which asked for it, END, or fatally. */
  lemma {:induction false} ForcedOutcome(
    env: Env, log: seq<Event>, frames: seq<Activation>, bottom: Bottom, forced: Forced, depth: nat)
    ensures var r := ForcedPass(env, log, frames, bottom, forced, depth);
            && |r.visits| <= |frames|
            && (r.outcome.Restored? ==>
                  && r.visits != [] && r.outcome.depth == depth + |r.visits| - 1
                  && Installs(r.visits[|r.visits| - 1].reply)
                  && InstallAt(frames[|r.visits| - 1], r.visits[|r.visits| - 1].reply.answer.writes)
                     == Ok(r.outcome.registers))
            && (!r.outcome.Restored? ==> r.outcome == Returned(5) || r.outcome == Returned(2))
            && (forall i | 0 <= i < |r.visits| - 1 :: Passed(r.visits[i].reply))
    decreases |frames|
  {
    hide Ask, ForcedActions, EndActions, InstallAt;
    if frames != [] {
      var call := StopCall(env, forced, ForcedActions(), ContextOf(frames[0]));
      var log1 := log + [Event(call, env.respond(log, call))];
      var (log2, reply) := Ask(env, log1, frames[0], ForcedActions());
      if GoesOn(reply, frames, bottom) { ForcedOutcome(env, log2, frames[1..], bottom, forced, depth + 1); }
    }
  }

  // ---- Masks and parameters ----

  /** The one stop function with the one parameter; forced cleanup, with the end bit only about the end of the stack. */
  predicate ForcedCall(forced: Forced, call: Call) {
    && (call.Stop? ==> call.routine == forced.stop && call.parameter == forced.parameter)
    && !Has(call.actions, ACTION_SEARCH) && !Has(call.actions, ACTION_HANDLER)
    && Has(call.actions, ACTION_FORCE) && Has(call.actions, ACTION_CLEANUP)
    && (Has(call.actions, ACTION_END) <==> call.context.frame == None)
  }

  predicate AllForced(forced: Forced, events: seq<Event>) {
    forall i | 0 <= i < |events| :: ForcedCall(forced, events[i].call)
  }

  lemma {:induction false} VisitMasks(env: Env, forced: Forced, frames: seq<Activation>, visits: seq<Visit>)
    requires |visits| <= |frames|
    ensures forall call | call in VisitCalls(env, forced, frames, visits) :: ForcedCall(forced, call)
    decreases |visits|
  {
    hide ForcedCall;
    if visits != [] {
      FrameMasks(env, forced, frames[0], visits[0]);
      VisitMasks(env, forced, frames[1..], visits[1..]);
    }
  }

  lemma FrameMasks(env: Env, forced: Forced, a: Activation, visit: Visit)
    ensures forall call | call in FrameCalls(env, forced, a, visit) :: ForcedCall(forced, call)
  {
    Masks();
  }

  lemma {:induction false} LastMask(
    env: Env, forced: Forced, frames: seq<Activation>, bottom: Bottom, visits: seq<Visit>)
    requires |visits| <= |frames|
    ensures forall call | call in LastCall(env, forced, frames, bottom, visits) :: ForcedCall(forced, call)
    decreases |visits|
  {
    if visits == [] {
      Masks();
    } else if GoesOn(visits[0].reply, frames, bottom) {
      hide ForcedCall;
      LastMask(env, forced, frames[1..], bottom, visits[1..]);
    }
  }

  /** Every call of a forced pass is one a forced pass may make. */
  lemma ForcedMasks(env: Env, log: seq<Event>, frames: seq<Activation>, bottom: Bottom, forced: Forced)
    ensures AllForced(forced, Added(log, ForcedPass(env, log, frames, bottom, forced, 0).log))
  {
    hide ForcedCall, VisitCalls, LastCall, ForcedPass;
    ForcedTrace(env, log, frames, bottom, forced, 0);
    var r := ForcedPass(env, log, frames, bottom, forced, 0);
    VisitMasks(env, forced, frames, r.visits);
    LastMask(env, forced, frames, bottom, r.visits);
    var calls := VisitCalls(env, forced, frames, r.visits) + LastCall(env, forced, frames, bottom, r.visits);
    var events := Added(log, r.log);
    forall i | 0 <= i < |events| ensures ForcedCall(forced, events[i].call) {
      assert calls[i] in calls && calls[i] == events[i].call;
    }
  }
}
