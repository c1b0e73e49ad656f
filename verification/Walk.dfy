/** The entries of the unwinder: a cursor walks the live stack while callbacks are made through it. */
module Walk {
  import opened Words
  import opened Registers
  import opened CallFrame
  import opened Stack
  import opened Protocol
  import opened Passes

  /** Everything outside the unwinder that it calls, with a record of all calls and answers. */
  class World {
    const respond: Respond
    var log: seq<Event>

    constructor (respond: Respond)
      ensures this.respond == respond && log == []
    {
      this.respond := respond;
      log := [];
    }

    method Answer(call: Call) returns (answer: Answer)
      modifies this
      ensures answer == respond(old(log), call)
      ensures log == old(log) + [Event(call, answer)]
    {
      answer := respond(log, call);
      log := log + [Event(call, answer)];
    }
  }

  /** The header of a live exception. */
  class Exception {
    const address: NonZero
    const class_: Word
    var words: (Word, Word)

    constructor (address: NonZero, class_: Word)
      ensures this.address == address && this.class_ == class_ && words == (0, 0)
    {
      this.address := address;
      this.class_ := class_;
      words := (0, 0);
    }

    method Write(state: Resume)
      modifies this
      ensures words == Encode(state)
    {
      words := Encode(state);
    }

    method Read() returns (state: Resume)
      ensures state == DecodeWords(words)
    {
      state := DecodeWords(words);
    }
  }

  /** A position on the stack: the registers of one activation, and how its instruction pointer is meant. */
  class Cursor {
    var state: State
    var relation: Relation

    constructor (registers: State)
      ensures state == registers && relation == Return
    {
      state := registers;
      relation := Return;
    }

    ghost function Image(): Image
      reads this, state
    {
      state.slots
    }

    method Current(m: Machine) returns (r: Result<Option<Info>, UnwindError>)
      ensures r == InfoOf(m, Image(), relation)
    {
      r := InfoOf(m, state.slots, relation);
    }

    /** Replaces the registers by those of the caller. */
    method Advance(m: Machine, info: Info) returns (r: Result<(), UnwindError>)
      modifies this
      ensures match CallerOf(m, info.fde.row, old(Image()))
              case Ok(image) =>
                && r == Ok(()) && fresh(state) && Image() == image && relation == NextRelation(info)
                && (relation.Instruction? <==> info.fde.signal)
              case Err(e) => r == Err(e) && state == old(state) && Image() == old(Image()) && relation == old(relation)
    {
      var caller := Caller(m, info.fde.row, state);
      match caller
      case Ok(registers) =>
        state := registers;
        relation := NextRelation(info);
        r := Ok(());
      case Err(error) => r := Err(error);
    }

    /** The identity of the frame. */
    method Key() returns (r: Option<Word>)
      ensures r == KeyOf(Image(), relation)
      ensures r.Some? <==> 7 in Image()
      ensures r.Some? ==> r.value == (Image()[7] - (if relation.Instruction? then 1 else 0)) % WORD
    {
      var stack := state.Read(RSP);
      match stack
      case Ok(value) => r := Some(WrapAdd(value, if relation.Before() then -1 else 0));
      case Err(_) => r := None;
    }

    /** Carries out the writes of a callback, one by one; a write that fails is ignored. */
    method Set(writes: seq<(int, Word)>)
      modifies state
      ensures Image() == ApplyWrites(old(Image()), writes)
    {
      ghost var first := Image();
      assert writes[0..] == writes;
      for i := 0 to |writes|
        invariant state == old(state) && ApplyWrites(Image(), writes[i..]) == ApplyWrites(first, writes)
      {
        assert writes[i..][1..] == writes[i + 1..];
        var _ := state.Write(writes[i].0, writes[i].1);
      }
    }

    /** Moves the stack pointer past the pushed arguments and validates the registers for a landing pad. */
    method Install(args: Word) returns (r: Result<Image, UnwindError>)
      modifies state
      ensures var image := old(Image());
              r == if RSP !in image then Err(Unavailable(RSP)) else InstallOf(image[RSP := WrapAdd(image[RSP], args)])
    {
      var adjusted := state.Adjust(args);
      match adjusted
      case Err(error) => r := Err(error);
      case Ok(_) => r := state.Install();
    }
  }

  ghost function EnvOf(m: Machine, world: World, exception: Exception): Env {
    Env(m, world.respond, exception.class_, exception.address)
  }

  /** Makes one call with the cursor open to the callee. */
  method Invoke(world: World, cursor: Cursor, call: Call) returns (answer: Answer)
    modifies world, cursor.state
    ensures answer == world.respond(old(world.log), call)
    ensures world.log == old(world.log) + [Event(call, answer)]
    ensures cursor.Image() == ApplyWrites(old(cursor.Image()), answer.writes)
    ensures Disciplined(world.respond) && answer.reason != INSTALL ==> cursor.Image() == old(cursor.Image())
  {
    answer := world.Answer(call);
    cursor.Set(answer.writes);
  }

  /** One call to the routine at an address and its answer; nothing is called at the null address. */
  ghost predicate CalledOnce(
    respond: Respond, before: seq<Event>, after: seq<Event>, routine: Word, actions: int, exception: Exception,
    context: Context, reply: Reply)
  {
    if routine == 0 then reply == Failed && after == before
    else
      var call := Personality(routine, 1, actions, exception.class_, exception.address, context);
      var answer := respond(before, call);
      after == before + [Event(call, answer)] && reply == Replied(answer)
  }

  /**
   * Asks the personality of the current frame: the routine that a direct pointer names, or whose address memory
   * holds where an indirect pointer points. Without a pointer, or without a readable word there, nothing is called.
   */
  method AskFrame(m: Machine, world: World, cursor: Cursor, exception: Exception, info: Info, actions: int)
    returns (reply: Reply)
    modifies world, cursor.state
    ensures var context := Context(old(cursor.Image()), cursor.relation, Some(info));
            match info.fde.personality
            case None => reply == NoRoutine && world.log == old(world.log)
            case Some(Direct(routine)) =>
              CalledOnce(world.respond, old(world.log), world.log, routine, actions, exception, context, reply)
            case Some(Indirect(slot)) =>
              match m.memory(slot, 8)
              case None => reply == Failed && world.log == old(world.log)
              case Some(routine) =>
                CalledOnce(world.respond, old(world.log), world.log, routine, actions, exception, context, reply)
    ensures var a := Activation(old(cursor.Image()), cursor.relation, info);
            (world.log, reply) == Ask(EnvOf(m, world, exception), old(world.log), a, actions)
    ensures reply.Replied? ==> cursor.Image() == ApplyWrites(old(cursor.Image()), reply.answer.writes)
    ensures Disciplined(world.respond) && !Installs(reply) ==> cursor.Image() == old(cursor.Image())
  {
    match RoutineOf(m, info)
    case Err(_) => reply := Failed;
    case Ok(None) => reply := NoRoutine;
    case Ok(Some(routine)) =>
      var context := Context(cursor.state.slots, cursor.relation, Some(info));
      var call := Personality(routine, VERSION, actions, exception.class_, exception.address, context);
      var answer := Invoke(world, cursor, call);
      reply := Replied(answer);
  }

  /** What standing on a stack means for looking up the frame and for stepping on. */
  lemma Standing(m: Machine, image: Image, relation: Relation, frames: seq<Activation>, bottom: Bottom)
    requires Unrolls(m, image, relation, frames, bottom)
    ensures frames == [] && bottom.EndOfStack? ==>
              InfoOf(m, image, relation) == Ok(None) && bottom == EndOfStack(image, relation)
    ensures frames == [] && !bottom.EndOfStack? ==> InfoOf(m, image, relation).Err?
    ensures frames != [] ==>
              && InfoOf(m, image, relation) == Ok(Some(frames[0].info))
              && frames[0] == Activation(image, relation, frames[0].info)
              && (CallerOf(m, frames[0].info.fde.row, image).Ok? <==> Advances(frames, bottom))
              && (CallerOf(m, frames[0].info.fde.row, image).Ok? ==>
                    Unrolls(m, CallerOf(m, frames[0].info.fde.row, image).value, NextRelation(frames[0].info),
                        frames[1..], bottom))
  {
    hide InfoOf, CallerOf;
  }

  /** Resolves the frame the cursor stands on. */
  method LookUp(m: Machine, cursor: Cursor, ghost frames: seq<Activation>, ghost bottom: Bottom)
    returns (r: Result<Option<Info>, UnwindError>)
    requires Unrolls(m, cursor.Image(), cursor.relation, frames, bottom)
    ensures frames == [] && bottom.EndOfStack? ==>
              r == Ok(None) && bottom == EndOfStack(cursor.Image(), cursor.relation)
    ensures frames == [] && !bottom.EndOfStack? ==> r.Err?
    ensures frames != [] ==> r == Ok(Some(frames[0].info))
                             && frames[0] == Activation(cursor.Image(), cursor.relation, frames[0].info)
  {
    Standing(m, cursor.Image(), cursor.relation, frames, bottom);
    r := cursor.Current(m);
  }

  /** Goes on to the caller, if there is one to go on to. */
  method StepOn(m: Machine, cursor: Cursor, info: Info, ghost frames: seq<Activation>, ghost bottom: Bottom)
    returns (advanced: bool)
    requires Unrolls(m, cursor.Image(), cursor.relation, frames, bottom) && frames != [] && frames[0].info == info
    modifies cursor
    ensures advanced == Advances(frames, bottom)
    ensures advanced ==> fresh(cursor.state) && Unrolls(m, cursor.Image(), cursor.relation, frames[1..], bottom)
  {
    Standing(m, cursor.Image(), cursor.relation, frames, bottom);
    hide Unrolls, CallerOf;
    var r := cursor.Advance(m, info);
    advanced := r.Ok?;
  }

  /** One frame of the search. */
  lemma SearchStep(env: Env, log: seq<Event>, frames: seq<Activation>, bottom: Bottom, depth: nat)
    ensures var r := SearchPass(env, log, frames, bottom, depth);
            if frames == [] then r.log == log && r.found == Err(if bottom.EndOfStack? then END else FATAL1)
            else
              var (log', reply) := Ask(env, log, frames[0], ACTION_SEARCH);
              if Passed(reply) && Advances(frames, bottom) then
                var rest := SearchPass(env, log', frames[1..], bottom, depth + 1);
                r.log == rest.log && r.found == rest.found
              else
                r.log == log' && r.found == if Claims(reply) && Key(frames[0]).Some?
                                            then Ok((depth, Key(frames[0]).value)) else Err(FATAL1)
  {
    hide Ask, KeyOf;
  }

  /** Phase one from the captured registers. */
  method Search(m: Machine, world: World, registers: State, exception: Exception,
                ghost frames: seq<Activation>, ghost bottom: Bottom)
    returns (r: Result<Word, int>)
    requires Disciplined(world.respond)
    requires Unrolls(m, registers.slots, Return, frames, bottom)
    modifies world, registers
    ensures var searched := SearchPass(EnvOf(m, world, exception), old(world.log), frames, bottom, 0);
            && world.log == searched.log
            && r == match searched.found case Ok((_, key)) => Ok(key) case Err(reason) => Err(reason)
  {
    hide Unrolls, Ask, KeyOf, SearchPass, Disciplined, ApplyWrites, Installs, Advances;
    var cursor := new Cursor(registers);
    ghost var env := EnvOf(m, world, exception);
    ghost var i: nat := 0;
    ghost var left := frames;
    ghost var result := SearchPass(env, world.log, frames, bottom, 0);
    while true
      invariant Unrolls(m, cursor.Image(), cursor.relation, left, bottom)
      invariant cursor.state == registers || fresh(cursor.state)
      invariant var rest := SearchPass(env, world.log, left, bottom, i);
                rest.log == result.log && rest.found == result.found
      decreases |left|
    {
      SearchStep(env, world.log, left, bottom, i);
      var current := LookUp(m, cursor, left, bottom);
      match current {
        case Err(_) => return Err(FATAL1);
        case Ok(None) => return Err(END);
        case Ok(Some(info)) =>
          var reply := AskFrame(m, world, cursor, exception, info, ACTION_SEARCH);
          NotInstalling(reply);
          if Passed(reply) {
            var advanced := StepOn(m, cursor, info, left, bottom);
            if !advanced {
              return Err(FATAL1);
            }
            left, i := left[1..], i + 1;
          } else if Claims(reply) {
            var key := cursor.Key();
            match key {
              case Some(value) => return Ok(value);
              case None => return Err(FATAL1);
            }
          } else {
            return Err(FATAL1);
          }
      }
    }
  }

  lemma NotInstalling(reply: Reply)
    ensures Passed(reply) || Claims(reply) ==> !Installs(reply)
  {
  }

  // ---- Phase two ----

  /** One frame of phase two. */
  lemma NormalStep(env: Env, log: seq<Event>, frames: seq<Activation>, bottom: Bottom, handler: Word, depth: nat)
    ensures var r := NormalPass(env, log, frames, bottom, handler, depth);
            if frames == [] || Key(frames[0]) == None then r.log == log && r.outcome == Returned(FATAL2)
            else
              var (log', reply) := Ask(env, log, frames[0], NormalActions(frames[0], handler));
              if Installs(reply) then r.log == log' && r.outcome == LeaveFrame(frames[0], reply.answer, depth)
              else if Passed(reply) && Key(frames[0]) != Some(handler) && Advances(frames, bottom) then
                var rest := NormalPass(env, log', frames[1..], bottom, handler, depth + 1);
                r.log == rest.log && r.outcome == rest.outcome
              else r.log == log' && r.outcome == Returned(FATAL2)
  {
    hide Ask, KeyOf, NormalActions;
  }

  /** Leaves the current frame for its landing pad, or fails; the personality has made its writes. */
  method Leave(cursor: Cursor, args: Word, ghost a: Activation, ghost answer: Answer, ghost depth: nat)
    returns (outcome: Result<Image, int>)
    requires a.info.fde.row.args == args && cursor.Image() == ApplyWrites(a.image, answer.writes)
    modifies cursor.state
    ensures OutcomeOf(outcome, depth) == LeaveFrame(a, answer, depth)
  {
    var installed := cursor.Install(args);
    match installed
    case Ok(registers) => outcome := Ok(registers);
    case Err(_) => outcome := Err(FATAL2);
  }

  /** What a pass reports of a landing pad or a reason code. */
  function OutcomeOf(outcome: Result<Image, int>, depth: nat): Outcome {
    match outcome case Ok(registers) => Restored(depth, registers) case Err(reason) => Returned(reason)
  }

  /** Phase two from the given registers; registers for a landing pad, or the reason for coming back. */
  method Normal(m: Machine, world: World, registers: State, exception: Exception, handler: Word,
                ghost frames: seq<Activation>, ghost bottom: Bottom)
    returns (r: Result<Image, int>, ghost depth: nat)
    requires Disciplined(world.respond)
    requires Unrolls(m, registers.slots, Return, frames, bottom)
    modifies world, registers
    ensures var passage := NormalPass(EnvOf(m, world, exception), old(world.log), frames, bottom, handler, 0);
            world.log == passage.log && OutcomeOf(r, depth) == passage.outcome
  {
    hide Unrolls, Ask, KeyOf, NormalPass, Disciplined, ApplyWrites, Advances, LeaveFrame, BitOr;
    var cursor := new Cursor(registers);
    ghost var env := EnvOf(m, world, exception);
    ghost var result := NormalPass(env, world.log, frames, bottom, handler, 0);
    ghost var left := frames;
    depth := 0;
    while true
      invariant Unrolls(m, cursor.Image(), cursor.relation, left, bottom)
      invariant cursor.state == registers || fresh(cursor.state)
      invariant var rest := NormalPass(env, world.log, left, bottom, handler, depth);
                rest.log == result.log && rest.outcome == result.outcome
      decreases |left|
    {
      NormalStep(env, world.log, left, bottom, handler, depth);
      var current := LookUp(m, cursor, left, bottom);
      if current.Err? || current.value == None {
        return Err(FATAL2), depth;
      }
      var info := current.value.value;
      var key := cursor.Key();
      if key == None {
        return Err(FATAL2), depth;
      }
      var selected := key.value == handler;
      var actions := if selected then BitOr(ACTION_CLEANUP, ACTION_HANDLER) else ACTION_CLEANUP;
      var reply := AskFrame(m, world, cursor, exception, info, actions);
      if Installs(reply) {
        r := Leave(cursor, info.fde.row.args, left[0], reply.answer, depth);
        return;
      }
      if selected || !Passed(reply) {
        return Err(FATAL2), depth;
      }
      var advanced := StepOn(m, cursor, info, left, bottom);
      if !advanced {
        return Err(FATAL2), depth;
      }
      left, depth := left[1..], depth + 1;
    }
  }

  // ---- Forced unwinding ----

  /** One frame of a forced pass, or its end, with the numbers of the ABI: NONE is 0, FATAL2 2 and END 5. */
  lemma ForcedStep(env: Env, log: seq<Event>, frames: seq<Activation>, bottom: Bottom, forced: Forced, depth: nat)
    ensures var r := ForcedPass(env, log, frames, bottom, forced, depth);
            if frames == [] && !bottom.EndOfStack? then r.log == log && r.outcome == Returned(2)
            else
              var actions := if frames == [] then EndActions() else ForcedActions();
              var context := if frames == [] then Context(bottom.image, bottom.relation, None)
                  else ContextOf(frames[0]);
              var call := StopCall(env, forced, actions, context);
              var answer := env.respond(log, call);
              var log1 := log + [Event(call, answer)];
              if answer.reason != 0 then r.log == log1 && r.outcome == Returned(2)
              else if frames == [] then r.log == log1 && r.outcome == Returned(5)
              else
                var (log2, reply) := Ask(env, log1, frames[0], ForcedActions());
                if Installs(reply) then r.log == log2 && r.outcome == LeaveFrame(frames[0], reply.answer, depth)
                else if Passed(reply) && Advances(frames, bottom) then
                  var rest := ForcedPass(env, log2, frames[1..], bottom, forced, depth + 1);
                  r.log == rest.log && r.outcome == rest.outcome
                else r.log == log2 && r.outcome == Returned(2)
  {
    hide Ask, ForcedActions, EndActions;
  }

  /** Asks the stop function about the current frame, or about the end of the stack. */
  method AskStop(
    world: World, cursor: Cursor, exception: Exception, forced: Forced, frame: Option<Info>) returns (goOn: bool)
    modifies world, cursor.state
    ensures var actions := if frame.Some? then ForcedActions() else EndActions();
            var context := Context(old(cursor.Image()), cursor.relation, frame);
            var call := Stop(forced.stop, VERSION, actions, exception.class_, exception.address, context,
                forced.parameter);
            var answer := world.respond(old(world.log), call);
            world.log == old(world.log) + [Event(call, answer)] && goOn == (answer.reason == 0)
    ensures Disciplined(world.respond) && goOn ==> cursor.Image() == old(cursor.Image())
  {
    var actions := if frame.Some? then ForcedActions() else EndActions();
    var context := Context(cursor.state.slots, cursor.relation, frame);
    var call := Stop(forced.stop, VERSION, actions, exception.class_, exception.address, context, forced.parameter);
    var answer := Invoke(world, cursor, call);
    goOn := answer.reason == NONE;
  }

  /** Forced unwinding: the stop function is asked before every personality and once at the end of the stack. */
  method Force(m: Machine, world: World, registers: State, exception: Exception, forced: Forced,
               ghost frames: seq<Activation>, ghost bottom: Bottom)
    returns (r: Result<Image, int>, ghost depth: nat)
    requires Disciplined(world.respond)
    requires Unrolls(m, registers.slots, Return, frames, bottom)
    modifies world, registers
    ensures var passage := ForcedPass(EnvOf(m, world, exception), old(world.log), frames, bottom, forced, 0);
            world.log == passage.log && OutcomeOf(r, depth) == passage.outcome
  {
    hide Unrolls, Ask, KeyOf, ForcedPass, Disciplined, ApplyWrites, Advances, LeaveFrame, ForcedActions, EndActions;
    var cursor := new Cursor(registers);
    ghost var env := EnvOf(m, world, exception);
    ghost var result := ForcedPass(env, world.log, frames, bottom, forced, 0);
    ghost var left := frames;
    depth := 0;
    while true
      invariant Unrolls(m, cursor.Image(), cursor.relation, left, bottom)
      invariant cursor.state == registers || fresh(cursor.state)
      invariant var rest := ForcedPass(env, world.log, left, bottom, forced, depth);
                rest.log == result.log && rest.outcome == result.outcome
      decreases |left|
    {
      ForcedStep(env, world.log, left, bottom, forced, depth);
      var current := LookUp(m, cursor, left, bottom);
      if current.Err? {
        return Err(FATAL2), depth;
      }
      var goOn := AskStop(world, cursor, exception, forced, current.value);
      if !goOn {
        return Err(FATAL2), depth;
      }
      if current.value == None {
        return Err(END), depth;
      }
      var info := current.value.value;
      var reply := AskFrame(m, world, cursor, exception, info, ForcedActions());
      if Installs(reply) {
        r := Leave(cursor, info.fde.row.args, left[0], reply.answer, depth);
        return;
      }
      if !Passed(reply) {
        return Err(FATAL2), depth;
      }
      var advanced := StepOn(m, cursor, info, left, bottom);
      if !advanced {
        return Err(FATAL2), depth;
      }
      left, depth := left[1..], depth + 1;
    }
  }

  // ---- Entries ----

  /** How an entry ends for its caller: a landing pad, a reason code, or a trap. */
  datatype Ending = Jump(registers: Image) | Code(reason: int) | Trap

  function EndingOf(outcome: Outcome): Ending {
    match outcome
    case Restored(_, registers) => Jump(registers)
    case Returned(reason) => Code(reason)
    case Trapped => Trap
  }

  function EndingFrom(r: Result<Image, int>): Ending {
    match r case Ok(registers) => Jump(registers) case Err(reason) => Code(reason)
  }

  /** Searches on a copy of the registers, records the handler in the exception, and runs phase two. */
  method Begin(m: Machine, world: World, registers: State, exception: Exception,
               ghost frames: seq<Activation>, ghost bottom: Bottom)
    returns (ending: Ending)
    requires Disciplined(world.respond)
    requires Unrolls(m, registers.slots, Return, frames, bottom)
    modifies world, registers, exception
    ensures var entry := BeginEntry(EnvOf(m, world, exception), old(exception.words), old(world.log), frames, bottom);
            world.log == entry.passage.log && exception.words == entry.words
            && ending == EndingOf(entry.passage.outcome)
  {
    hide Unrolls, SearchPass, NormalPass, Disciplined;
    var root := new State.Clone(registers);
    var found := Search(m, world, root, exception, frames, bottom);
    if found.Err? {
      return Code(found.error);
    }
    exception.Write(Resume.Normal(found.value));
    var r, depth := Normal(m, world, registers, exception, found.value, frames, bottom);
    return EndingFrom(r);
  }

  method Raise(m: Machine, world: World, registers: State, exception: Exception?,
               ghost frames: seq<Activation>, ghost bottom: Bottom)
    returns (ending: Ending)
    requires Disciplined(world.respond)
    requires Unrolls(m, registers.slots, Return, frames, bottom)
    modifies world, registers, exception
    ensures exception == null ==> ending == Code(FATAL1) && world.log == old(world.log)
    ensures exception != null ==>
              var entry := BeginEntry(EnvOf(m, world, exception), old(exception.words), old(world.log), frames, bottom);
              world.log == entry.passage.log && exception.words == entry.words
              && ending == EndingOf(entry.passage.outcome)
  {
    if exception == null {
      return Code(FATAL1);
    }
    ending := Begin(m, world, registers, exception, frames, bottom);
  }

  /** Starts a forced unwind; the stop function and its parameter go into the exception. */
  method ForcedUnwind(m: Machine, world: World, registers: State, exception: Exception?, forced: Forced,
                      ghost frames: seq<Activation>, ghost bottom: Bottom)
    returns (ending: Ending)
    requires Disciplined(world.respond)
    requires Unrolls(m, registers.slots, Return, frames, bottom)
    modifies world, registers, exception
    ensures exception == null ==> ending == Code(FATAL2) && world.log == old(world.log)
    ensures exception != null ==>
              var entry := ForcedEntry(EnvOf(m, world, exception), old(world.log), frames, bottom, forced);
              world.log == entry.passage.log && exception.words == entry.words
              && ending == EndingOf(entry.passage.outcome)
  {
    if exception == null {
      return Code(FATAL2);
    }
    exception.Write(Forcing(forced));
    hide Unrolls, ForcedPass, Disciplined;
    var r, depth := Force(m, world, registers, exception, forced, frames, bottom);
    return EndingFrom(r);
  }

  /** Resumes after a cleanup landing pad; it jumps to the next landing pad or traps, and never returns a code. */
  method ResumeUnwind(m: Machine, world: World, registers: State, exception: Exception?,
                      ghost frames: seq<Activation>, ghost bottom: Bottom)
    returns (ending: Ending)
    requires Disciplined(world.respond)
    requires Unrolls(m, registers.slots, Return, frames, bottom)
    modifies world, registers
    ensures !ending.Code?
    ensures exception == null ==> ending == Trap && world.log == old(world.log)
    ensures exception != null ==>
              var entry := ResumeEntry(EnvOf(m, world, exception), old(exception.words), old(world.log), frames,
                  bottom);
              world.log == entry.passage.log && entry.words == exception.words
              && ending == EndingOf(entry.passage.outcome)
  {
    if exception == null {
      return Trap;
    }
    hide Unrolls, NormalPass, ForcedPass, Disciplined;
    var resume := exception.Read();
    var r;
    ghost var depth;
    match resume {
      case Normal(key) => r, depth := Normal(m, world, registers, exception, key, frames, bottom);
      case Forcing(forced) => r, depth := Force(m, world, registers, exception, forced, frames, bottom);
    }
    return if r.Ok? then Jump(r.value) else Trap;
  }

  /** Rethrows: a normal propagation starts afresh, a forced one goes on. */
  method Rethrow(m: Machine, world: World, registers: State, exception: Exception?,
                 ghost frames: seq<Activation>, ghost bottom: Bottom)
    returns (ending: Ending)
    requires Disciplined(world.respond)
    requires Unrolls(m, registers.slots, Return, frames, bottom)
    modifies world, registers, exception
    ensures exception == null ==> ending == Code(FATAL2) && world.log == old(world.log)
    ensures exception != null ==>
              var entry := RethrowEntry(EnvOf(m, world, exception), old(exception.words), old(world.log), frames,
                  bottom);
              world.log == entry.passage.log && exception.words == entry.words
              && ending == EndingOf(entry.passage.outcome)
  {
    if exception == null {
      return Code(FATAL2);
    }
    hide Unrolls, BeginEntry, ForcedPass, Disciplined;
    var resume := exception.Read();
    match resume {
      case Normal(_) => ending := Begin(m, world, registers, exception, frames, bottom);
      case Forcing(forced) =>
        var r;
        ghost var depth;
        r, depth := Force(m, world, registers, exception, forced, frames, bottom);
        ending := EndingFrom(r);
    }
  }
}
