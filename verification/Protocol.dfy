/** From raw personality callbacks to typed phases, and from typed decisions back to reason codes. */
module Protocol {
  import opened Words
  import T = Table
  import opened Registers

  type NonZero = T.NonZero

  // ---- Reason codes and action bits (Itanium C++ ABI: Exception Handling, section 1.1) ----

  const NONE: int := 0
  const FOREIGN: int := 1
  const FATAL2: int := 2
  const FATAL1: int := 3
  const STOP: int := 4
  const END: int := 5
  const HANDLER: int := 6
  const INSTALL: int := 7
  const CONTINUE: int := 8

  const ACTION_SEARCH: nat := 1
  const ACTION_CLEANUP: nat := 2
  const ACTION_HANDLER: nat := 4
  const ACTION_FORCE: nat := 8
  const ACTION_END: nat := 16

  /** Bit test on a two's complement word; `bit` is a power of two. */
  predicate Has(actions: int, bit: nat)
    requires bit > 0
  {
    actions / bit % 2 == 1
  }

  predicate Known(actions: int) {
    0 <= actions < 32
  }

  /** The masks that the unwinder builds by or. */
  lemma Masks()
    ensures BitOr(ACTION_CLEANUP, ACTION_HANDLER) == 6
    ensures BitOr(ACTION_FORCE, ACTION_CLEANUP) == 10
    ensures BitOr(BitOr(ACTION_FORCE, ACTION_CLEANUP), ACTION_END) == 26
  {
    OrDisjoint(2, 1, 2);
    OrDisjoint(2, 1, 3);
    OrDisjoint(10, 1, 4);
    assert BitOr(8, 2) == 10 by {
      assert BitOr(8, 2) == 2 * BitOr(4, 1);
      assert BitOr(4, 1) == 2 * BitOr(2, 0) + 1;
      assert BitOr(2, 0) == 2 * BitOr(1, 0);
    }
  }

  // ---- What a callback shows ----

  /** One frame as the context queries report it. */
  datatype View = View(ip: Word, before: bool, start: Word, lsda: Option<NonZero>) {
    /** The address for the call-site search: the instruction itself, or the call in front of a return address. */
    function Site(): Word {
      if ip == 0 || before then ip else ip - 1
    }
  }

  /** A live exception: its address, the class in its header and the class passed along. */
  datatype Raw = Raw(
    version: int, actions: int, class_: Word, exception: Word, headerClass: Word, context: Option<View>)

  datatype ProtocolError =
    | UnsupportedVersion
    | NullException
    | NullContext
    | ClassMismatch
    | UnknownActions
    | MissingPhase
    | InvalidCombination

  datatype Phase = Search | Cleanup(forced: bool) | Handler

  datatype Invocation = Invocation(phase: Phase, view: View, exception: NonZero, class_: Word)

  function Decode(raw: Raw): Result<Invocation, ProtocolError> {
    var search, cleanup := Has(raw.actions, ACTION_SEARCH), Has(raw.actions, ACTION_CLEANUP);
    var handler, forced := Has(raw.actions, ACTION_HANDLER), Has(raw.actions, ACTION_FORCE);
    if raw.version != 1 then Err(UnsupportedVersion)
    else if raw.exception == 0 then Err(NullException)
    else if raw.context.None? then Err(NullContext)
    else if raw.headerClass != raw.class_ then Err(ClassMismatch)
    else if !Known(raw.actions) then Err(UnknownActions)
    else
      var phase :-
        if !search && !cleanup then Err(MissingPhase)
        else if search then (if cleanup || forced || handler then Err(InvalidCombination) else Ok(Search))
        else if handler then (if forced then Err(InvalidCombination) else Ok(Handler))
        else Ok(Cleanup(forced));
      Ok(Invocation(phase, raw.context.value, raw.exception, raw.class_))
  }

  /** The phase a mask stands for, with or without the end-of-stack bit. */
  function PhaseOf(actions: int): Option<Phase> {
    var mask := if actions >= 16 then actions - 16 else actions;
    if mask == 1 then Some(Search)
    else if mask == 2 then Some(Cleanup(false))
    else if mask == 6 then Some(Handler)
    else if mask == 10 then Some(Cleanup(true))
    else None
  }

  /**
   * A callback decodes if and only if it is coherent and its mask is one of the four phases, and then into that
   * phase.
   */
  lemma DecodeIff(raw: Raw, invocation: Invocation)
    ensures Decode(raw) == Ok(invocation) <==>
            && raw.version == 1 && raw.exception != 0 && raw.context == Some(invocation.view)
            && raw.headerClass == raw.class_ == invocation.class_ && invocation.exception == raw.exception
            && Known(raw.actions) && PhaseOf(raw.actions) == Some(invocation.phase)
  {
    if Known(raw.actions) { MaskBits(raw.actions); }
  }

  lemma MaskBits(actions: int)
    requires 0 <= actions < 32
    ensures var mask := if actions >= 16 then actions - 16 else actions;
            && mask == (if Has(actions, 1) then 1 else 0) + (if Has(actions, 2) then 2 else 0)
                       + (if Has(actions, 4) then 4 else 0) + (if Has(actions, 8) then 8 else 0)
  {
  }

  /** Why a callback does not decode: the first of these that holds. */
  lemma DecodeErrs(raw: Raw)
    ensures Decode(raw).Err? ==>
              Decode(raw).error
              == if raw.version != 1 then UnsupportedVersion
                 else if raw.exception == 0 then NullException
                 else if raw.context == None then NullContext
                 else if raw.headerClass != raw.class_ then ClassMismatch
                 else if raw.actions < 0 || raw.actions > 31 then UnknownActions
                 else if raw.actions % 4 == 0 then MissingPhase
                 else InvalidCombination
  {
    if Known(raw.actions) { MaskBits(raw.actions); }
  }

  // ---- Decisions ----

  datatype SearchDecision = Continue | HandlerFound | Fatal
  datatype CleanupDecision = Continue | Install(pad: NonZero, selector: SWord) | Fatal
  datatype HandlerDecision = Install(pad: NonZero, selector: SWord) | Fatal

  /** A typed personality: one function for each phase. */
  datatype Policy = Policy(
    search: (View, NonZero, Word) -> SearchDecision,
    cleanup: (View, NonZero, Word, bool) -> CleanupDecision,
    handler: (View, NonZero, Word) -> HandlerDecision)

  /** A reason code and the register writes made through the context, in order. */
  datatype Answer = Answer(reason: int, writes: seq<(int, Word)>)

  /** What installing a landing pad writes: exception object, selector, instruction pointer. */
  function InstallAnswer(exception: NonZero, pad: NonZero, selector: SWord): Answer {
    Answer(INSTALL, [(RAX, exception), (RDX, selector % WORD), (RA, pad)])
  }

  function Dispatch(policy: Policy, raw: Raw): Answer {
    match Decode(raw)
    case Err(_) => Answer(if Has(raw.actions, ACTION_CLEANUP) then FATAL2 else FATAL1, [])
    case Ok(Invocation(phase, view, exception, class_)) =>
      match phase
      case Search =>
        (match policy.search(view, exception, class_)
         case Continue => Answer(CONTINUE, [])
         case HandlerFound => Answer(HANDLER, [])
         case Fatal => Answer(FATAL1, []))
      case Cleanup(forced) =>
        (match policy.cleanup(view, exception, class_, forced)
         case Continue => Answer(CONTINUE, [])
         case Install(pad, selector) => InstallAnswer(exception, pad, selector)
         case Fatal => Answer(FATAL2, []))
      case Handler =>
        (match policy.handler(view, exception, class_)
         case Install(pad, selector) => InstallAnswer(exception, pad, selector)
         case Fatal => Answer(FATAL2, []))
  }

  /**
   * The reason code and the writes for every decision, with the numbers of the ABI. A callback that does not decode
   * is fatal for its phase by the cleanup bit, and an install writes the exception to register 0, the selector to
   * register 1 and the pad to the return address column 16.
   */
  lemma DispatchMeans(policy: Policy, raw: Raw)
    ensures var a := Dispatch(policy, raw);
            match Decode(raw)
            case Err(_) => a == Answer(if raw.actions / 2 % 2 == 1 then 2 else 3, [])
            case Ok(call) =>
              match call.phase
              case Search =>
                var d := policy.search(call.view, call.exception, call.class_);
                a == Answer(if d.Continue? then 8 else if d.HandlerFound? then 6 else 3, [])
              case Cleanup(forced) =>
                var d := policy.cleanup(call.view, call.exception, call.class_, forced);
                if d.Install? then Installed(a, call.exception, d.pad, d.selector)
                else a == Answer(if d.Continue? then 8 else 2, [])
              case Handler =>
                var d := policy.handler(call.view, call.exception, call.class_);
                if d.Install? then Installed(a, call.exception, d.pad, d.selector) else a == Answer(2, [])
  {
    hide Decode;
  }

  predicate Installed(a: Answer, exception: NonZero, pad: NonZero, selector: SWord) {
    a.reason == 7 && |a.writes| == 3 && a.writes[0] == (0, exception) && a.writes[2] == (16, pad)
    && a.writes[1].0 == 1 && a.writes[1].1 == (if selector < 0 then selector + WORD else selector)
  }

  /** A typed personality writes the context exactly when it answers INSTALL, and never does so while searching. */
  lemma DispatchDiscipline(policy: Policy, raw: Raw)
    ensures var a := Dispatch(policy, raw);
            && (a.writes != [] <==> a.reason == INSTALL)
            && (a.reason == HANDLER ==> Decode(raw).Ok? && Decode(raw).value.phase == Search)
            && (a.reason == INSTALL ==> Decode(raw).Ok? && Decode(raw).value.phase != Search)
            && (a.reason == CONTINUE ==> Decode(raw).Ok? && Decode(raw).value.phase != Handler)
            && a.reason in {CONTINUE, HANDLER, INSTALL, FATAL1, FATAL2}
  {
    hide Decode;
  }
}
