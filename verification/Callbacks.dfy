/**
 * What a personality sees of the calls that the unwinder makes to it.
 *
 * A typed personality decodes each call before it decides. Every call of every entry decodes into the phase
 * that its pass stands for, and the personality looks up call sites with the very address that selected the frame.
 */
module Callbacks {
  import opened Words
  import opened Registers
  import opened CallFrame
  import opened Stack
  import opened Protocol
  import opened Passes
  import opened Phases
  import opened Forcing

  /** What the context queries answer; a pointer that cannot be resolved reads as no table. */
  function ViewOf(m: Machine, context: Context): View {
    var ip := match At(context.image, RA) case Some(ip) => ip case None => 0;
    match context.frame
    case None => View(ip, context.relation.Before(), 0, None)
    case Some(info) => View(ip, context.relation.Before(), info.fde.start, TableAddress(Resolve(m, info.fde.lsda)))
  }

  function TableAddress(pointer: Result<Option<Word>, UnwindError>): Option<NonZero> {
    match pointer
    case Ok(Some(address)) => if address == 0 then None else Some(address)
    case _ => None
  }

  /** The table address that a personality sees, by the kind of pointer and what memory holds. */
  predicate TableSeen(m: Machine, pointer: Option<Pointer>, lsda: Option<NonZero>) {
    match pointer
    case None => lsda == None
    case Some(Direct(address)) => if address == 0 then lsda == None else lsda.Some? && lsda.value == address
    case Some(Indirect(slot)) =>
      match m.memory(slot, 8)
      case None => lsda == None
      case Some(address) => if address == 0 then lsda == None else lsda.Some? && lsda.value == address
  }

  /** What the queries answer: return address, relation, code start and table; without a frame, zero and no table. */
  lemma ViewMeans(m: Machine, context: Context)
    ensures var view := ViewOf(m, context);
            && view.ip == (if 16 in context.image then context.image[16] else 0)
            && (view.before <==> context.relation.Instruction?)
            && (if context.frame.None? then view.start == 0 && view.lsda == None
                else view.start == context.frame.value.fde.start
                     && TableSeen(m, context.frame.value.fde.lsda, view.lsda))
  {
  }

  /** A call as its personality receives it; the header of the exception holds the class that is passed along. */
  function RawOf(env: Env, call: Call): Raw {
    Raw(call.version, call.actions, call.class_, call.exception, env.class_, Some(ViewOf(env.m, call.context)))
  }

  /**
   * A call is understood if and only if it carries version 1, the class in the header of the exception and
   * a mask of one phase; a call with another class than the header's fails as a mismatch.
   */
  lemma RawMeans(env: Env, call: Call)
    ensures Decode(RawOf(env, call)).Ok? <==>
            && call.version == 1 && call.class_ == env.class_
            && 0 <= call.actions < 32 && PhaseOf(call.actions).Some?
    ensures call.version == 1 && call.class_ != env.class_ ==>
              Decode(RawOf(env, call)) == Err(ClassMismatch)
  {
    hide PhaseOf, ViewOf, Decode;
    var raw := RawOf(env, call);
    DecodeErrs(raw);
    match Decode(raw)
    case Ok(invocation) => DecodeIff(raw, invocation);
    case Err(_) =>
      if PhaseOf(call.actions).Some? {
        DecodeIff(raw, Invocation(PhaseOf(call.actions).value, ViewOf(env.m, call.context), call.exception,
                                  call.class_));
      }
  }

  /** The call decodes into `phase`, and its call-site address is the one that selected the frame. */
  predicate Understood(env: Env, call: Call, phase: Phase) {
    && Decode(RawOf(env, call)) == Ok(Invocation(phase, ViewOf(env.m, call.context), env.exception, env.class_))
    && call.context.frame.Some? && ViewOf(env.m, call.context).Site() == call.context.frame.value.instruction
  }

  /** Every personality call is understood, as a phase that its mask names. */
  predicate Coherent(env: Env, call: Call) {
    call.Personality? ==> PhaseOf(call.actions).Some? && Understood(env, call, PhaseOf(call.actions).value)
  }

  predicate AllCoherent(env: Env, events: seq<Event>) {
    forall i | 0 <= i < |events| :: Coherent(env, events[i].call)
  }

  predicate Resolved(m: Machine, a: Activation) {
    InfoOf(m, a.image, a.relation) == Ok(Some(a.info))
  }

  predicate AllResolved(m: Machine, frames: seq<Activation>) {
    forall i | 0 <= i < |frames| :: Resolved(m, frames[i])
  }

  lemma Unrolled(m: Machine, image: Image, relation: Relation, frames: seq<Activation>, bottom: Bottom)
    requires Unrolls(m, image, relation, frames, bottom)
    ensures AllResolved(m, frames)
  {
    hide InfoOf;
    FramesHaveInfo(m, image, relation, frames, bottom);
  }

  /** The address for the call-site search is the one that selected the metadata of the frame. */
  lemma SameAddress(m: Machine, a: Activation)
    requires Resolved(m, a)
    ensures ViewOf(m, ContextOf(a)).Site() == a.info.instruction
  {
  }

  /** The masks that the passes send. */
  predicate Sent(actions: int) {
    || actions == ACTION_SEARCH || actions == ACTION_CLEANUP
    || actions == BitOr(ACTION_CLEANUP, ACTION_HANDLER) || actions == ForcedActions()
  }

  lemma SentPhases()
    ensures Sent(ACTION_SEARCH) && Sent(ACTION_CLEANUP) && Sent(BitOr(ACTION_CLEANUP, ACTION_HANDLER))
            && Sent(ForcedActions())
    ensures PhaseOf(ACTION_SEARCH) == Some(Search) && PhaseOf(ACTION_CLEANUP) == Some(Cleanup(false))
    ensures PhaseOf(BitOr(ACTION_CLEANUP, ACTION_HANDLER)) == Some(Handler)
    ensures PhaseOf(ForcedActions()) == Some(Cleanup(true))
    ensures forall actions | Sent(actions) :: Known(actions) && PhaseOf(actions).Some?
  {
    Masks();
  }

  lemma CallDecodes(env: Env, routine: NonZero, actions: int, a: Activation)
    requires Sent(actions)
    ensures PhaseOf(actions).Some?
    ensures Decode(RawOf(env, CallOf(env, routine, actions, a)))
            == Ok(Invocation(PhaseOf(actions).value, ViewOf(env.m, ContextOf(a)), env.exception, env.class_))
  {
    hide PhaseOf, ViewOf, Decode, Sent;
    SentPhases();
    DecodeIff(RawOf(env, CallOf(env, routine, actions, a)),
              Invocation(PhaseOf(actions).value, ViewOf(env.m, ContextOf(a)), env.exception, env.class_));
  }

  lemma CallIsCoherent(env: Env, routine: NonZero, actions: int, a: Activation)
    requires Sent(actions) && Resolved(env.m, a)
    ensures Coherent(env, CallOf(env, routine, actions, a))
  {
    hide PhaseOf, ViewOf, Decode, Sent, Resolved;
    SameAddress(env.m, a);
    CallDecodes(env, routine, actions, a);
  }

  // ---- Search and phase two ----

  predicate SentVisits(visits: seq<Visit>) {
    forall i | 0 <= i < |visits| :: Sent(visits[i].actions)
  }

  lemma {:induction false} VisitsAreCoherent(env: Env, frames: seq<Activation>, visits: seq<Visit>)
    requires AllResolved(env.m, frames) && |visits| <= |frames| && SentVisits(visits)
    ensures AllCoherent(env, EventsOf(env, frames, visits))
    decreases |visits|
  {
    hide Coherent, Resolved, Sent, RoutineOf;
    if visits != [] {
      var routine := RoutineOf(env.m, frames[0].info);
      if visits[0].reply.Replied? && routine.Ok? && routine.value.Some? {
        CallIsCoherent(env, routine.value.value, visits[0].actions, frames[0]);
      }
      VisitsAreCoherent(env, frames[1..], visits[1..]);
    }
  }

  /** What a pass that records its visits has added to the log. */
  lemma RecordedIsCoherent(
    env: Env, log: seq<Event>, frames: seq<Activation>, depth: nat, visits: seq<Visit>, after: seq<Event>)
    requires AllResolved(env.m, frames) && Recorded(env, log, frames, depth, visits, after) && SentVisits(visits)
    ensures log <= after && AllCoherent(env, Added(log, after))
  {
    hide AllCoherent, AllResolved, SentVisits;
    VisitsAreCoherent(env, frames, visits);
    AddedIs(log, EventsOf(env, frames, visits));
  }

  lemma SearchIsCoherent(env: Env, log: seq<Event>, frames: seq<Activation>, bottom: Bottom)
    requires AllResolved(env.m, frames)
    ensures var r := SearchPass(env, log, frames, bottom, 0); log <= r.log && AllCoherent(env, Added(log, r.log))
  {
    hide AllCoherent, AllResolved, Recorded;
    SearchVisits(env, log, frames, bottom, 0);
    hide SearchPass;
    var r := SearchPass(env, log, frames, bottom, 0);
    RecordedIsCoherent(env, log, frames, 0, r.visits, r.log);
  }

  lemma NormalIsCoherent(env: Env, log: seq<Event>, frames: seq<Activation>, bottom: Bottom, handler: Word)
    requires AllResolved(env.m, frames)
    ensures var r := NormalPass(env, log, frames, bottom, handler, 0);
            log <= r.log && AllCoherent(env, Added(log, r.log))
  {
    hide AllCoherent, AllResolved, Recorded;
    NormalVisits(env, log, frames, bottom, handler, 0);
    hide NormalPass;
    var r := NormalPass(env, log, frames, bottom, handler, 0);
    RecordedIsCoherent(env, log, frames, 0, r.visits, r.log);
  }

  // ---- Forced unwinding ----

  predicate CoherentCalls(env: Env, calls: seq<Call>) {
    forall i | 0 <= i < |calls| :: Coherent(env, calls[i])
  }

  lemma FrameIsCoherent(env: Env, forced: Forced, a: Activation, visit: Visit)
    requires Resolved(env.m, a)
    ensures CoherentCalls(env, FrameCalls(env, forced, a, visit))
  {
    hide Understood, Resolved, RoutineOf, ForcedActions, PhaseOf;
    var routine := RoutineOf(env.m, a.info);
    if routine.Ok? && routine.value.Some? {
      CallIsCoherent(env, routine.value.value, ForcedActions(), a);
    }
  }

  lemma {:induction false} ForcedVisitsAreCoherent(
    env: Env, forced: Forced, frames: seq<Activation>, visits: seq<Visit>)
    requires AllResolved(env.m, frames) && |visits| <= |frames|
    ensures CoherentCalls(env, VisitCalls(env, forced, frames, visits))
    decreases |visits|
  {
    hide Coherent, Resolved, FrameCalls;
    if visits != [] {
      FrameIsCoherent(env, forced, frames[0], visits[0]);
      ForcedVisitsAreCoherent(env, forced, frames[1..], visits[1..]);
    }
  }

  lemma {:induction false} LastIsCoherent(
    env: Env, forced: Forced, frames: seq<Activation>, bottom: Bottom, visits: seq<Visit>)
    requires |visits| <= |frames|
    ensures CoherentCalls(env, LastCall(env, forced, frames, bottom, visits))
    decreases |visits|
  {
    hide GoesOn, Understood, PhaseOf;
    if visits != [] && GoesOn(visits[0].reply, frames, bottom) {
      LastIsCoherent(env, forced, frames[1..], bottom, visits[1..]);
    }
  }

  lemma ForcedIsCoherent(env: Env, log: seq<Event>, frames: seq<Activation>, bottom: Bottom, forced: Forced)
    requires AllResolved(env.m, frames)
    ensures var r := ForcedPass(env, log, frames, bottom, forced, 0);
            log <= r.log && AllCoherent(env, Added(log, r.log))
  {
    hide Coherent, AllResolved, ForcedPass, VisitCalls, LastCall;
    ForcedTrace(env, log, frames, bottom, forced, 0);
    var r := ForcedPass(env, log, frames, bottom, forced, 0);
    ForcedVisitsAreCoherent(env, forced, frames, r.visits);
    LastIsCoherent(env, forced, frames, bottom, r.visits);
    var calls := VisitCalls(env, forced, frames, r.visits) + LastCall(env, forced, frames, bottom, r.visits);
    var events := Added(log, r.log);
    assert forall i | 0 <= i < |events| :: calls[i] == events[i].call;
  }

  // ---- Every entry ----

  lemma CoherentTogether(env: Env, log: seq<Event>, middle: seq<Event>, after: seq<Event>)
    requires log <= middle <= after
    requires AllCoherent(env, Added(log, middle)) && AllCoherent(env, Added(middle, after))
    ensures AllCoherent(env, Added(log, after))
  {
    hide Coherent;
    assert after[|log|..] == middle[|log|..] + after[|middle|..];
  }

  lemma BeginIsCoherent(env: Env, words: (Word, Word), log: seq<Event>, frames: seq<Activation>, bottom: Bottom)
    requires AllResolved(env.m, frames)
    ensures AllCoherent(env, Added(log, BeginEntry(env, words, log, frames, bottom).passage.log))
  {
    hide AllCoherent, Added, AllResolved, SearchPass, NormalPass;
    SearchIsCoherent(env, log, frames, bottom);
    var searched := SearchPass(env, log, frames, bottom, 0);
    if searched.found.Ok? {
      NormalIsCoherent(env, searched.log, frames, bottom, searched.found.value.1);
      CoherentTogether(env, log, searched.log,
                       NormalPass(env, searched.log, frames, bottom, searched.found.value.1, 0).log);
    }
  }

  /**
   * Every call that any entry makes to a personality, whatever the private words say, decodes without error
   * into the phase of its mask, and carries the address that selected the metadata of its frame.
   */
  lemma EveryCallbackDecodes(
    env: Env, words: (Word, Word), log: seq<Event>, forced: Forced, image: Image, relation: Relation,
    frames: seq<Activation>, bottom: Bottom)
    requires Unrolls(env.m, image, relation, frames, bottom)
    ensures AllCoherent(env, Added(log, BeginEntry(env, words, log, frames, bottom).passage.log))
    ensures AllCoherent(env, Added(log, ForcedEntry(env, log, frames, bottom, forced).passage.log))
    ensures AllCoherent(env, Added(log, ResumeEntry(env, words, log, frames, bottom).passage.log))
    ensures AllCoherent(env, Added(log, RethrowEntry(env, words, log, frames, bottom).passage.log))
  {
    hide AllCoherent, Added, AllResolved, BeginEntry, NormalPass, ForcedPass, Unrolls;
    Unrolled(env.m, image, relation, frames, bottom);
    BeginIsCoherent(env, words, log, frames, bottom);
    ForcedIsCoherent(env, log, frames, bottom, forced);
    match DecodeWords(words)
    case Normal(key) => NormalIsCoherent(env, log, frames, bottom, key);
    case Forcing(other) => ForcedIsCoherent(env, log, frames, bottom, other);
  }
}
