/**
 * What phase one promised, phase two delivers: typed personalities on top of the passes.
 *
 * A pass leaves for the landing pad that the personality of the left frame decided on, with the exception and the
 * selector in place and everything that the frame preserves.
 */
module Delivery {
  import opened Words
  import opened Stack
  import opened Protocol
  import opened Passes
  import opened Callbacks
  import Registers
  import CallFrame
  import Personalities

  /** The typed personality behind each routine. */
  type Policies = NonZero -> Policy

  /** Personalities answer as their typed policies dispatch; what stop functions answer stays open. */
  ghost predicate Typed(env: Env, policies: Policies) {
    forall log, call: Call | call.Personality? ::
      env.respond(log, call) == Dispatch(policies(call.routine), RawOf(env, call))
  }

  /** Stop functions leave the context alone unless they answer INSTALL. */
  ghost predicate CalmStops(respond: Respond) {
    forall log, call: Call | call.Stop? :: respond(log, call).reason != INSTALL ==> respond(log, call).writes == []
  }

  /** Typed personalities keep the discipline that the unwinder relies on. */
  lemma TypedIsDisciplined(env: Env, policies: Policies)
    requires Typed(env, policies) && CalmStops(env.respond)
    ensures Disciplined(env.respond)
  {
    hide Dispatch, RawOf;
    forall log, call: Call ensures env.respond(log, call).reason != INSTALL ==> env.respond(log, call).writes == [] {
      if call.Personality? { DispatchDiscipline(policies(call.routine), RawOf(env, call)); }
    }
  }

  // ---- What a frame decides ----

  datatype Decision = GoesOn | Claim | Enters(pad: NonZero, selector: SWord) | Fails

  function FrameView(env: Env, a: Activation): View {
    ViewOf(env.m, ContextOf(a))
  }

  /** What the policy of the frame decides in a phase; a frame without a personality lets the exception go on. */
  function DecisionOf(env: Env, policies: Policies, a: Activation, phase: Phase): Decision {
    match RoutineOf(env.m, a.info)
    case Err(_) => Fails
    case Ok(None) => GoesOn
    case Ok(Some(routine)) => PolicyDecision(policies(routine), FrameView(env, a), env.exception, env.class_, phase)
  }

  function PolicyDecision(policy: Policy, view: View, exception: NonZero, class_: Word, phase: Phase): Decision {
    match phase
    case Search =>
      (match policy.search(view, exception, class_)
       case Continue => GoesOn
       case HandlerFound => Claim
       case Fatal => Fails)
    case Cleanup(forced) =>
      (match policy.cleanup(view, exception, class_, forced)
       case Continue => GoesOn
       case Install(pad, selector) => Enters(pad, selector)
       case Fatal => Fails)
    case Handler =>
      (match policy.handler(view, exception, class_)
       case Install(pad, selector) => Enters(pad, selector)
       case Fatal => Fails)
  }

  lemma ClaimsOnlyInSearch(env: Env, policies: Policies, a: Activation, phase: Phase)
    requires !phase.Search?
    ensures !DecisionOf(env, policies, a, phase).Claim?
  {
    hide RoutineOf, ViewOf;
  }

  /** The search lets the exception pass. */
  predicate LetsPass(env: Env, policies: Policies, a: Activation) {
    DecisionOf(env, policies, a, Phase.Search).GoesOn?
  }

  /** The search finds a handler. */
  predicate IsHandler(env: Env, policies: Policies, a: Activation) {
    DecisionOf(env, policies, a, Phase.Search).Claim?
  }

  /** Phase two does not fail in front of the handler. */
  predicate CleansUp(env: Env, policies: Policies, a: Activation) {
    !DecisionOf(env, policies, a, Phase.Cleanup(false)).Fails?
  }

  /** Phase two enters the handler. */
  predicate CanHandle(env: Env, policies: Policies, a: Activation) {
    DecisionOf(env, policies, a, Phase.Handler).Enters?
  }

  /** What a frame in front of the handler promises: if it lets the search pass, its cleanup does not fail. */
  predicate PromisesCleanup(env: Env, policies: Policies, a: Activation) {
    match RoutineOf(env.m, a.info)
    case Ok(Some(routine)) =>
      Personalities.CleansAfterPass(policies(routine), FrameView(env, a), env.exception, env.class_)
    case _ => true
  }

  /** What the selected frame promises: if it claims the exception, it can be entered. */
  predicate PromisesHandler(env: Env, policies: Policies, a: Activation) {
    match RoutineOf(env.m, a.info)
    case Ok(Some(routine)) =>
      Personalities.HandlesAfterClaim(policies(routine), FrameView(env, a), env.exception, env.class_)
    case _ => true
  }

  /** The frames in front of frame `h` promise their cleanup, and frame `h` its handler. */
  predicate Promising(env: Env, policies: Policies, frames: seq<Activation>, h: nat) {
    && h < |frames| && PromisesHandler(env, policies, frames[h])
    && forall i | 0 <= i < h :: PromisesCleanup(env, policies, frames[i])
  }

  lemma PromiseKept(env: Env, policies: Policies, a: Activation)
    ensures PromisesCleanup(env, policies, a) && LetsPass(env, policies, a) ==> CleansUp(env, policies, a)
    ensures PromisesHandler(env, policies, a) && IsHandler(env, policies, a) ==> CanHandle(env, policies, a)
  {
    hide RoutineOf, ViewOf;
  }

  // ---- What the unwinder is told ----

  /** The mask that a pass sends for a phase. */
  function MaskOf(phase: Phase): int {
    match phase
    case Search => ACTION_SEARCH
    case Cleanup(forced) => if forced then ForcedActions() else ACTION_CLEANUP
    case Handler => BitOr(ACTION_CLEANUP, ACTION_HANDLER)
  }

  predicate ReplyIs(env: Env, decision: Decision, reply: Reply) {
    match decision
    case GoesOn => Passed(reply)
    case Claim => Claims(reply)
    case Enters(pad, selector) => reply == Replied(InstallAnswer(env.exception, pad, selector))
    case Fails => reply.Failed? || (reply.Replied? && reply.answer.reason in {FATAL1, FATAL2})
  }

  lemma Told(env: Env, policies: Policies, log: seq<Event>, routine: NonZero, a: Activation, phase: Phase)
    requires Typed(env, policies)
    ensures var raw := RawOf(env, CallOf(env, routine, MaskOf(phase), a));
            && env.respond(log, CallOf(env, routine, MaskOf(phase), a)) == Dispatch(policies(routine), raw)
            && Decode(raw) == Ok(Invocation(phase, FrameView(env, a), env.exception, env.class_))
  {
    hide Dispatch, RawOf, Decode, ViewOf, Sent, PhaseOf, ForcedActions, BitOr;
    SentPhases();
    CallDecodes(env, routine, MaskOf(phase), a);
    assert CallOf(env, routine, MaskOf(phase), a).Personality?;
  }

  /** In every phase the unwinder is told what the policy of the frame decided. */
  lemma Answered(env: Env, policies: Policies, log: seq<Event>, a: Activation, phase: Phase)
    requires Typed(env, policies)
    ensures ReplyIs(env, DecisionOf(env, policies, a, phase), Ask(env, log, a, MaskOf(phase)).1)
  {
    hide Decode, RawOf, ViewOf, RoutineOf, MaskOf, Typed;
    var routine := RoutineOf(env.m, a.info);
    if routine.Ok? && routine.value.Some? { Told(env, policies, log, routine.value.value, a, phase); }
  }

  /** What a decision means for the branches of a pass. */
  lemma DecisionBranches(env: Env, decision: Decision, reply: Reply)
    requires ReplyIs(env, decision, reply)
    ensures Passed(reply) <==> decision.GoesOn?
    ensures Claims(reply) <==> decision.Claim?
    ensures Installs(reply) <==> decision.Enters?
  {
  }

  // ---- Landing ----

  /**
   * The registers with which a landing pad is entered: the pad and selector that were decided on, the exception,
   * the stack pointer of the frame past its pushed arguments, and what the frame preserves.
   */
  predicate Lands(env: Env, a: Activation, decision: Decision, registers: Registers.Image) {
    && Registers.PRESERVED <= a.image.Keys && registers.Keys == Registers.MODELED && decision.Enters?
    && registers[Registers.RA] == decision.pad && registers[Registers.RDX] == decision.selector % WORD
    && registers[Registers.RAX] == env.exception
    && registers[Registers.RSP] == WrapAdd(a.image[Registers.RSP], a.info.fde.row.args)
    && (forall x | x in Registers.PRESERVED - {Registers.RSP} :: registers[x] == a.image[x])
  }

  lemma LeaveLands(env: Env, a: Activation, decision: Decision, reply: Reply, depth: nat)
    requires Registers.PRESERVED <= a.image.Keys && ReplyIs(env, decision, reply) && decision.Enters?
    ensures Installs(reply)
    ensures var outcome := LeaveFrame(a, reply.answer, depth);
            outcome.Restored? && outcome.depth == depth && Lands(env, a, decision, outcome.registers)
  {
    InstallSucceeds(a, env.exception, decision.selector % WORD, decision.pad);
    InstallKeys(a, reply.answer.writes);
    hide InstallAt;
  }

  // ---- Phase one ----

  /** A search that ends at `h` has let every younger frame pass and found its handler there. */
  lemma {:induction false} SearchMeans(
    env: Env, policies: Policies, log: seq<Event>, frames: seq<Activation>, bottom: Bottom, depth: nat)
    requires Typed(env, policies)
    ensures var found := SearchPass(env, log, frames, bottom, depth).found;
            found.Ok? ==>
              && depth <= found.value.0 < depth + |frames|
              && Key(frames[found.value.0 - depth]) == Some(found.value.1)
              && IsHandler(env, policies, frames[found.value.0 - depth])
              && forall i | 0 <= i < found.value.0 - depth :: LetsPass(env, policies, frames[i])
    decreases |frames|
  {
    hide Ask, DecisionOf, KeyOf, Typed, ReplyIs, Passed, Claims;
    if frames != [] {
      var (log', reply) := Ask(env, log, frames[0], ACTION_SEARCH);
      Answered(env, policies, log, frames[0], Phase.Search);
      DecisionBranches(env, DecisionOf(env, policies, frames[0], Phase.Search), reply);
      if Passed(reply) && Advances(frames, bottom) {
        SearchMeans(env, policies, log', frames[1..], bottom, depth + 1);
        assert forall i | 1 <= i < |frames| :: frames[i] == frames[1..][i - 1];
      }
    }
  }

  // ---- Phase two ----

  /** Every frame in front of frame `h` can be cleaned up, frame `h` alone has the key, and it can be entered. */
  predicate Ready(env: Env, policies: Policies, frames: seq<Activation>, key: Word, h: nat) {
    && h < |frames|
    && (forall i | 0 <= i <= h :: Registers.PRESERVED <= frames[i].image.Keys)
    && (forall i | 0 <= i < h ::
          Key(frames[i]).Some? && Key(frames[i]) != Some(key) && CleansUp(env, policies, frames[i]))
    && Key(frames[h]) == Some(key) && CanHandle(env, policies, frames[h])
  }

  /** The phase in which phase two asks frame `i`. */
  function PhaseAt(i: nat, h: nat): Phase {
    if i == h then Phase.Handler else Phase.Cleanup(false)
  }

  /** The first `i` frames have nothing to do in phase two. */
  predicate AllGoOn(env: Env, policies: Policies, frames: seq<Activation>, i: nat, h: nat)
    requires i <= |frames|
  {
    forall j | 0 <= j < i :: DecisionOf(env, policies, frames[j], PhaseAt(j, h)).GoesOn?
  }

  /**
   * A pass leaves for a landing pad no later than frame `h`: the pad that the left frame decided on, which is the
   * first frame to decide on one.
   */
  predicate Delivered(
    env: Env, policies: Policies, frames: seq<Activation>, h: nat, depth: nat, outcome: Outcome)
  {
    && outcome.Restored? && depth <= outcome.depth <= depth + h < depth + |frames|
    && var i := outcome.depth - depth;
       && Lands(env, frames[i], DecisionOf(env, policies, frames[i], PhaseAt(i, h)), outcome.registers)
       && AllGoOn(env, policies, frames, i, h)
  }

  lemma {:induction false} PassDelivers(
    env: Env, policies: Policies, log: seq<Event>, frames: seq<Activation>, bottom: Bottom, key: Word, depth: nat,
    h: nat)
    requires Typed(env, policies) && Ready(env, policies, frames, key, h)
    ensures Delivered(env, policies, frames, h, depth, NormalPass(env, log, frames, bottom, key, depth).outcome)
    decreases |frames|
  {
    hide Ask, DecisionOf, Lands, Typed, LeaveFrame, ReplyIs, KeyOf, BitOr, Passed, Installs;
    var phase := PhaseAt(0, h);
    var decision := DecisionOf(env, policies, frames[0], phase);
    var (log', reply) := Ask(env, log, frames[0], NormalActions(frames[0], key));
    Answered(env, policies, log, frames[0], phase);
    DecisionBranches(env, decision, reply);
    ClaimsOnlyInSearch(env, policies, frames[0], phase);
    if decision.Enters? {
      LeaveLands(env, frames[0], decision, reply, depth);
    } else {
      assert forall i | 1 <= i < |frames| :: frames[i] == frames[1..][i - 1];
      PassDelivers(env, policies, log', frames[1..], bottom, key, depth + 1, h - 1);
    }
  }

  /** A frame that cannot be cleaned up, and does not have the handler's key, ends the pass at once. */
  lemma StuckAtOnce(env: Env, policies: Policies, log: seq<Event>, frames: seq<Activation>, bottom: Bottom, key: Word)
    requires Typed(env, policies) && frames != []
    requires !CleansUp(env, policies, frames[0]) && Key(frames[0]) != Some(key)
    ensures NormalPass(env, log, frames, bottom, key, 0).outcome == Returned(FATAL2)
  {
    hide Ask, DecisionOf, Typed, LeaveFrame, ReplyIs, KeyOf, Passed, Installs;
    var decision := DecisionOf(env, policies, frames[0], Phase.Cleanup(false));
    Answered(env, policies, log, frames[0], Phase.Cleanup(false));
    DecisionBranches(env, decision, Ask(env, log, frames[0], ACTION_CLEANUP).1);
  }

  /** A stack as stepping runs through it from a known root, with rows that keep the preserved registers. */
  ghost predicate Grounded(m: CallFrame.Machine, frames: seq<Activation>, bottom: Bottom) {
    && frames != [] && Registers.PRESERVED <= frames[0].image.Keys && GentleStack(frames)
    && Unrolls(m, frames[0].image, frames[0].relation, frames, bottom)
  }

  lemma GroundedKeeps(m: CallFrame.Machine, frames: seq<Activation>, bottom: Bottom)
    requires Grounded(m, frames, bottom)
    ensures frames != []
    ensures forall i | 0 <= i < |frames| :: Registers.PRESERVED <= frames[i].image.Keys && Key(frames[i]).Some?
  {
    hide Unrolls, CallFrame.Gentle;
    PreservedThroughout(m, frames[0].image, frames[0].relation, frames, bottom);
    assert Registers.RSP in Registers.PRESERVED;
  }

  /**
   * Raising: if the frames in front of the one that the search finds promise their cleanup, and that one its
   * handler, the raise does not return. It leaves for the landing pad of the first frame that decides on one, which
   * is the handler's frame at the latest.
   */
  lemma RaiseDelivers(
    env: Env, policies: Policies, words: (Word, Word), log: seq<Event>, frames: seq<Activation>, bottom: Bottom)
    requires Typed(env, policies) && Grounded(env.m, frames, bottom)
    requires var found := SearchPass(env, log, frames, bottom, 0).found;
             found.Ok? ==>
               Foremost(frames, found.value.0, found.value.1) && Promising(env, policies, frames, found.value.0)
    ensures var found := SearchPass(env, log, frames, bottom, 0).found;
            var outcome := BeginEntry(env, words, log, frames, bottom).passage.outcome;
            && (found.Ok? ==> Delivered(env, policies, frames, found.value.0, 0, outcome))
            && (found.Err? ==> outcome == Returned(found.error))
  {
    hide SearchPass, NormalPass, Grounded, DecisionOf, PromisesCleanup, PromisesHandler, KeyOf, Typed, Delivered;
    var searched := SearchPass(env, log, frames, bottom, 0);
    if searched.found.Ok? {
      var (h, key) := searched.found.value;
      SearchMeans(env, policies, log, frames, bottom, 0);
      GroundedKeeps(env.m, frames, bottom);
      forall i | 0 <= i <= h
        ensures i < h ==> CleansUp(env, policies, frames[i])
        ensures i == h ==> CanHandle(env, policies, frames[i])
      {
        PromiseKept(env, policies, frames[i]);
      }
      PassDelivers(env, policies, searched.log, frames, bottom, key, 0, h);
    }
  }

  // ---- Forced unwinding ----

  /** Stop functions always let the pass go on. */
  ghost predicate StopsAccept(respond: Respond) {
    forall log, call: Call | call.Stop? :: respond(log, call).reason == NONE
  }

  /** The first frame that does not let a forced pass go on, or the number of frames when all do. */
  function FirstStopped(env: Env, policies: Policies, frames: seq<Activation>): (r: nat)
    ensures r <= |frames|
    ensures forall i | 0 <= i < r :: DecisionOf(env, policies, frames[i], Phase.Cleanup(true)).GoesOn?
    ensures r < |frames| ==> !DecisionOf(env, policies, frames[r], Phase.Cleanup(true)).GoesOn?
  {
    if frames == [] || !DecisionOf(env, policies, frames[0], Phase.Cleanup(true)).GoesOn? then 0
    else 1 + FirstStopped(env, policies, frames[1..])
  }

  /**
   * How a forced pass ends: at the first frame that does not let it go on, in its landing pad or fatally, and
   * otherwise where the stack does.
   */
  predicate ForcedEnds(
    env: Env, policies: Policies, frames: seq<Activation>, bottom: Bottom, depth: nat, outcome: Outcome)
  {
    var first := FirstStopped(env, policies, frames);
    if first == |frames| then outcome == Returned(if bottom.EndOfStack? then END else FATAL2)
    else
      var decision := DecisionOf(env, policies, frames[first], Phase.Cleanup(true));
      if decision.Enters? then
        && outcome.Restored? && outcome.depth == depth + first
        && Lands(env, frames[first], decision, outcome.registers)
      else outcome == Returned(FATAL2)
  }

  /**
   * Forced unwinding with typed personalities and stop functions that always accept: the pass lands at the first
   * frame whose forced cleanup has a landing pad, unless a frame in front of it fails, which is fatal. If no frame
   * has a pad or fails it returns END at the end of the stack, and is fatal where the stack cannot be followed.
   */
  lemma {:induction false} ForcedDelivers(
    env: Env, policies: Policies, log: seq<Event>, frames: seq<Activation>, bottom: Bottom, forced: Forced, depth: nat)
    requires Typed(env, policies) && StopsAccept(env.respond)
    requires forall i | 0 <= i < |frames| && i <= FirstStopped(env, policies, frames) ::
               Registers.PRESERVED <= frames[i].image.Keys
    ensures ForcedEnds(env, policies, frames, bottom, depth,
                       ForcedPass(env, log, frames, bottom, forced, depth).outcome)
    decreases |frames|
  {
    hide Ask, DecisionOf, Lands, Typed, LeaveFrame, ReplyIs, ForcedActions, EndActions, Passed, Installs;
    if frames != [] {
      var decision := DecisionOf(env, policies, frames[0], Phase.Cleanup(true));
      var call := StopCall(env, forced, ForcedActions(), ContextOf(frames[0]));
      var log1 := log + [Event(call, env.respond(log, call))];
      var (log2, reply) := Ask(env, log1, frames[0], ForcedActions());
      Answered(env, policies, log1, frames[0], Phase.Cleanup(true));
      DecisionBranches(env, decision, reply);
      if decision.Enters? {
        LeaveLands(env, frames[0], decision, reply, depth);
      } else if decision.GoesOn? {
        assert forall i | 1 <= i < |frames| :: frames[i] == frames[1..][i - 1];
        ForcedDelivers(env, policies, log2, frames[1..], bottom, forced, depth + 1);
      }
    }
  }
}
