/**
 * What one pass over the stack does, frame by frame.
 *
 * A pass asks the personality of each frame it visits. The answers come from outside: they are an arbitrary
 * function of the call and of everything that was called and answered before.
 */
module Passes {
  import opened Words
  import opened Registers
  import opened CallFrame
  import opened Stack
  import opened Protocol

  // ---- Calls out of the unwinder ----

  /** What an open context gives access to: the registers of the cursor, and the frame unless the stack has ended. */
  datatype Context = Context(image: Image, relation: Relation, frame: Option<Info>)

  datatype Call =
    | Personality(routine: NonZero, version: int, actions: int, class_: Word, exception: NonZero, context: Context)
    | Stop(routine: NonZero, version: int, actions: int, class_: Word, exception: NonZero, context: Context,
           parameter: Word)

  datatype Event = Event(call: Call, answer: Answer)

  type Respond = (seq<Event>, Call) -> Answer

  /** The propagation of one exception on one machine, with whatever answers its calls. */
  datatype Env = Env(m: Machine, respond: Respond, class_: Word, exception: NonZero)

  /** Personalities and stop functions leave the context alone unless they ask for its installation. */
  ghost predicate Disciplined(respond: Respond) {
    forall log, call :: respond(log, call).reason != INSTALL ==> respond(log, call).writes == []
  }

  const VERSION: int := 1

  function ContextOf(a: Activation): Context {
    Context(a.image, a.relation, Some(a.info))
  }

  /** The personality routine of a frame; a null one is an address error. */
  function RoutineOf(m: Machine, info: Info): Result<Option<NonZero>, UnwindError> {
    var pointer :- Resolve(m, info.fde.personality);
    match pointer
    case None => Ok(None)
    case Some(address) => if address == 0 then Err(Address) else Ok(Some(address))
  }

  datatype Reply = NoRoutine | Failed | Replied(answer: Answer)

  predicate Passed(reply: Reply) {
    reply.NoRoutine? || (reply.Replied? && reply.answer.reason == CONTINUE)
  }

  predicate Installs(reply: Reply) {
    reply.Replied? && reply.answer.reason == INSTALL
  }

  function CallOf(env: Env, routine: NonZero, actions: int, a: Activation): Call {
    Personality(routine, VERSION, actions, env.class_, env.exception, ContextOf(a))
  }

  /** Asks the personality of one frame, if it has one, and records the exchange. */
  function Ask(env: Env, log: seq<Event>, a: Activation, actions: int): (seq<Event>, Reply) {
    match RoutineOf(env.m, a.info)
    case Err(_) => (log, Failed)
    case Ok(None) => (log, NoRoutine)
    case Ok(Some(routine)) =>
      var call := CallOf(env, routine, actions, a);
      var answer := env.respond(log, call);
      (log + [Event(call, answer)], Replied(answer))
  }

  /** One frame visited by a pass, counted from the frame where the pass began. */
  datatype Visit = Visit(depth: nat, actions: int, reply: Reply)

  // ---- Phase one ----

  datatype Searched = Searched(log: seq<Event>, visits: seq<Visit>, found: Result<(nat, Word), int>)

  /** Whether the frame in front of `frames` has a caller to go on with. */
  predicate Advances(frames: seq<Activation>, bottom: Bottom) {
    !(|frames| == 1 && bottom == Broken)
  }

  predicate Claims(reply: Reply) {
    reply.Replied? && reply.answer.reason == HANDLER
  }

  /** Asks frame after frame whether it handles the exception; the answer is its depth and key. */
  function SearchPass(env: Env, log: seq<Event>, frames: seq<Activation>, bottom: Bottom, depth: nat): Searched
    decreases |frames|
  {
    if frames == [] then Searched(log, [], Err(if bottom.EndOfStack? then END else FATAL1))
    else
      var (log', reply) := Ask(env, log, frames[0], ACTION_SEARCH);
      var visit := Visit(depth, ACTION_SEARCH, reply);
      if Passed(reply) && Advances(frames, bottom) then
        var rest := SearchPass(env, log', frames[1..], bottom, depth + 1);
        Searched(rest.log, [visit] + rest.visits, rest.found)
      else if Claims(reply) && Key(frames[0]).Some? then Searched(log', [visit], Ok((depth, Key(frames[0]).value)))
      else Searched(log', [visit], Err(FATAL1))
  }

  // ---- Phase two ----

  datatype Outcome = Returned(reason: int) | Restored(depth: nat, registers: Image) | Trapped

  datatype Passage = Passage(log: seq<Event>, visits: seq<Visit>, outcome: Outcome)

  /** Leaving a frame for its landing pad, when its registers are complete. */
  function LeaveFrame(a: Activation, answer: Answer, depth: nat): Outcome {
    match InstallAt(a, answer.writes) case Ok(registers) => Restored(depth, registers) case Err(_) => Returned(FATAL2)
  }

  /** The mask for a frame in phase two. */
  function NormalActions(a: Activation, handler: Word): int {
    if Key(a) == Some(handler) then BitOr(ACTION_CLEANUP, ACTION_HANDLER) else ACTION_CLEANUP
  }

  /** Runs cleanups until a landing pad is installed; the frame with the handler's key must install one. */
  function NormalPass(
    env: Env, log: seq<Event>, frames: seq<Activation>, bottom: Bottom, handler: Word, depth: nat): Passage
    decreases |frames|
  {
    if frames == [] || Key(frames[0]) == None then Passage(log, [], Returned(FATAL2))
    else
      var actions := NormalActions(frames[0], handler);
      var (log', reply) := Ask(env, log, frames[0], actions);
      var visit := Visit(depth, actions, reply);
      if Installs(reply) then Passage(log', [visit], LeaveFrame(frames[0], reply.answer, depth))
      else if Passed(reply) && Key(frames[0]) != Some(handler) && Advances(frames, bottom) then
        var rest := NormalPass(env, log', frames[1..], bottom, handler, depth + 1);
        Passage(rest.log, [visit] + rest.visits, rest.outcome)
      else Passage(log', [visit], Returned(FATAL2))
  }

  // ---- Forced unwinding ----

  datatype Forced = Forced(stop: NonZero, parameter: Word)

  function StopCall(env: Env, forced: Forced, actions: int, context: Context): Call {
    Stop(forced.stop, VERSION, actions, env.class_, env.exception, context, forced.parameter)
  }

  function ForcedActions(): int {
    BitOr(ACTION_FORCE, ACTION_CLEANUP)
  }

  function EndActions(): int {
    BitOr(BitOr(ACTION_FORCE, ACTION_CLEANUP), ACTION_END)
  }

  /** Asks the stop function and then the personality of each frame, and the stop function once more at the end. */
  function ForcedPass(
    env: Env, log: seq<Event>, frames: seq<Activation>, bottom: Bottom, forced: Forced, depth: nat): Passage
    decreases |frames|
  {
    if frames == [] then
      match bottom
      case EndOfStack(image, relation) =>
        var call := StopCall(env, forced, EndActions(), Context(image, relation, None));
        var answer := env.respond(log, call);
        Passage(log + [Event(call, answer)], [], Returned(if answer.reason == NONE then END else FATAL2))
      case _ => Passage(log, [], Returned(FATAL2))
    else
      var call := StopCall(env, forced, ForcedActions(), ContextOf(frames[0]));
      var answer := env.respond(log, call);
      var log1 := log + [Event(call, answer)];
      if answer.reason != NONE then Passage(log1, [], Returned(FATAL2))
      else
        var (log2, reply) := Ask(env, log1, frames[0], ForcedActions());
        var visit := Visit(depth, ForcedActions(), reply);
        if Installs(reply) then Passage(log2, [visit], LeaveFrame(frames[0], reply.answer, depth))
        else if Passed(reply) && Advances(frames, bottom) then
          var rest := ForcedPass(env, log2, frames[1..], bottom, forced, depth + 1);
          Passage(rest.log, [visit] + rest.visits, rest.outcome)
        else Passage(log2, [visit], Returned(FATAL2))
  }

  // ---- The two private words ----

  /** What a propagation leaves in the exception for the next entry. */
  datatype Resume = Normal(key: Word) | Forcing(forced: Forced)

  function Encode(state: Resume): (Word, Word) {
    var first: Word := if state.Normal? then 0 else state.forced.stop;
    (first, if state.Normal? then state.key else state.forced.parameter)
  }

  function DecodeWords(words: (Word, Word)): Resume {
    if words.0 == 0 then Normal(words.1) else Forcing(Forced(words.0, words.1))
  }

  /** The words and the states correspond one to one: reading inverts writing, and writing inverts reading. */
  lemma WordsRoundTrip(state: Resume, words: (Word, Word))
    ensures DecodeWords(Encode(state)) == state
    ensures Encode(DecodeWords(words)) == words
  {
  }

  // ---- Entries ----

  /** One entry into the unwinder: what it leaves in the words and the log, whom it visited and how it ended. */
  datatype Entry = Entry(words: (Word, Word), passage: Passage)

  /** A fresh propagation: search, then remember the handler, then run phase two from the same root. */
  function BeginEntry(env: Env, words: (Word, Word), log: seq<Event>, frames: seq<Activation>, bottom: Bottom): Entry {
    var searched := SearchPass(env, log, frames, bottom, 0);
    match searched.found
    case Err(reason) => Entry(words, Passage(searched.log, [], Returned(reason)))
    case Ok((_, key)) => Entry(Encode(Normal(key)), NormalPass(env, searched.log, frames, bottom, key, 0))
  }

  function ForcedEntry(env: Env, log: seq<Event>, frames: seq<Activation>, bottom: Bottom, forced: Forced): Entry {
    Entry(Encode(Forcing(forced)), ForcedPass(env, log, frames, bottom, forced, 0))
  }

  /** Going on as the private words say. */
  function ContinuePass(
    env: Env, words: (Word, Word), log: seq<Event>, frames: seq<Activation>, bottom: Bottom): Passage
  {
    match DecodeWords(words)
    case Normal(key) => NormalPass(env, log, frames, bottom, key, 0)
    case Forcing(forced) => ForcedPass(env, log, frames, bottom, forced, 0)
  }

  /** Resuming after a cleanup: a pass that comes back instead of installing a landing pad ends in a trap. */
  function ResumeEntry(env: Env, words: (Word, Word), log: seq<Event>, frames: seq<Activation>, bottom: Bottom): Entry {
    var pass := ContinuePass(env, words, log, frames, bottom);
    Entry(words, if pass.outcome.Restored? then pass else pass.(outcome := Trapped))
  }

  /** Rethrowing starts a normal propagation afresh and continues a forced one. */
  function RethrowEntry(
    env: Env, words: (Word, Word), log: seq<Event>, frames: seq<Activation>, bottom: Bottom): Entry
  {
    match DecodeWords(words)
    case Normal(_) => BeginEntry(env, words, log, frames, bottom)
    case Forcing(forced) => Entry(words, ForcedPass(env, log, frames, bottom, forced, 0))
  }
}
