/**
 * One concrete propagation, from printed tables to the landing pads.
 *
 * A Rust frame with a cleanup stands on a C++ frame with a handler. The raise finds the handler and stops at the
 * cleanup. What the resume does depends on the call site at which the landing pad resumes.
 */
module Scenario {
  import opened Words
  import opened Registers
  import opened CallFrame
  import opened Stack
  import opened Protocol
  import opened Passes
  import opened Delivery
  import opened Runs
  import ActionRecords
  import Callbacks
  import CxxScan
  import Encoding
  import EndToEnd
  import Leb128
  import Personalities
  import PrintedTables
  import RoundTrip
  import RustScan
  import SmallTables
  import Table

  // ---- The machine ----

  function Known(sp: Word, ra: Word): Image {
    map r | r in PRESERVED + {RA} :: if r == RSP then sp else if r == RA then ra else 0
  }

  /** A frame of sixteen bytes with the return address in its last word. */
  const ROW: Row := Row(RegisterAndOffset(RSP, 16), [(RA, Offset(-8))], 0)

  const RUST_FDE: Fde := Fde(ROW, 1000, false, 0, None, Some(Direct(5000)), Some(Direct(1)))
  const CXX_FDE: Fde := Fde(ROW, 2000, false, 0, None, Some(Indirect(7008)), Some(Indirect(7000)))

  function FdeAt(address: Word): Result<Fde, UnwindError> {
    if 1000 <= address < 1100 then Ok(RUST_FDE) else if 2000 <= address < 2100 then Ok(CXX_FDE) else Err(Metadata)
  }

  /** The return addresses on the stack, the last one zero, and the two slots of the C++ frame's pointers. */
  function Memory(address: Word, size: nat): Option<Word> {
    if size != 8 then None
    else if address == 24 then Some(2006)
    else if address == 40 then Some(0)
    else if address == 7000 then Some(2)
    else if address == 7008 then Some(6000)
    else None
  }

  function Unevaluated(id: ExpressionId, image: Image, initial: Option<Word>): Result<Word, UnwindError> {
    Err(UnwindError.Expression)
  }

  const MACHINE: Machine := Machine(FdeAt, Memory, Unevaluated)

  const BOTTOM: Bottom := EndOfStack(Known(48, 0), Return)

  /** The Rust frame with its return address, on the C++ frame. */
  function Frames(ra: Word): seq<Activation>
    requires ra > 0
  {
    [Activation(Known(16, ra), Return, Info(ra - 1, RUST_FDE)),
     Activation(Known(32, 2006), Return, Info(2005, CXX_FDE))]
  }

  lemma Calls(sp: Word, ra: Word, back: Word)
    requires sp + 16 < WORD && Memory(sp + 8, 8) == Some(back)
    ensures CallerOf(MACHINE, ROW, Known(sp, ra)) == Ok(Known(sp + 16, back))
  {
    var image := Known(sp, ra);
    assert WrapAdd(sp, 16) == sp + 16 && WrapAdd(sp + 16, -8) == sp + 8;
    assert CfaOf(MACHINE, ROW, image) == Ok(sp + 16);
    assert RuleValue(MACHINE, sp + 16, image, RA, Offset(-8)) == Ok(Some(back));
    hide RuleValue, CfaOf;
    var rest := ROW.rules[1..];
    var caller := image[RSP := sp + 16] - {RA};
    assert rest == [] && ApplyRules(MACHINE, sp + 16, image, rest, caller[RA := back]) == Ok(caller[RA := back]);
    assert ApplyRules(MACHINE, sp + 16, image, ROW.rules, caller) == Ok(caller[RA := back]);
    SameImage(caller[RA := back], Known(sp + 16, back));
  }

  lemma FramesKnow(ra: Word)
    requires 1000 < ra <= 1100
    ensures PRESERVED <= Known(16, ra).Keys && GentleStack(Frames(ra)) && Growing(Frames(ra))
    ensures Key(Frames(ra)[0]) == Some(16) && Key(Frames(ra)[1]) == Some(32)
  {
    KeyIs(Frames(ra)[0]);
    KeyIs(Frames(ra)[1]);
  }

  /** The older frame is the last one of the stack. */
  lemma CxxFrameStands()
    ensures Unrolls(MACHINE, Known(32, 2006), Return, [Frames(1006)[1]], BOTTOM)
  {
    hide CallerOf;
    Calls(32, 2006, 0);
    assert [Frames(1006)[1]][1..] == [];
    assert Unrolls(MACHINE, Known(48, 0), Return, [], BOTTOM);
  }

  /** The unwinder can stand on this stack, wherever in the Rust function its youngest frame is. */
  lemma StackStands(ra: Word)
    requires 1000 < ra <= 1100
    ensures Unrolls(MACHINE, Known(16, ra), Return, Frames(ra), BOTTOM)
    ensures Grounded(MACHINE, Frames(ra), BOTTOM) && Growing(Frames(ra))
    ensures Key(Frames(ra)[0]) == Some(16) && Key(Frames(ra)[1]) == Some(32)
  {
    hide CallerOf, BOTTOM, GentleStack, Growing, KeyOf;
    Calls(16, ra, 2006);
    CxxFrameStands();
    FramesKnow(ra);
    var frames := Frames(ra);
    assert frames[1..] == [Frames(1006)[1]];
  }

  // ---- The tables ----

  const RUST_ENTRIES: seq<RoundTrip.Entry> := [RoundTrip.Entry(0, 10, 100, 0), RoundTrip.Entry(10, 10, 0, 0)]

  const CXX_ENTRIES: seq<RoundTrip.Entry> := [RoundTrip.Entry(0, 10, 100, 1)]

  /** One record with a filter. */
  const CXX_RECORDS: seq<ActionRecords.ActionRecord> := [ActionRecords.ActionRecord(-1, 1, None, 1)]

  const LAYOUT: RoundTrip.Layout := SmallTables.Small(None)

  lemma TablesPrint()
    ensures PrintedTables.Compiled(LAYOUT, Encoding.Bases(5000, 1000, None, None), RUST_ENTRIES, [], [])
    ensures PrintedTables.Compiled(LAYOUT, Encoding.Bases(6000, 2000, None, None), CXX_ENTRIES, CXX_RECORDS, [])
    ensures ActionRecords.LinksInside(CXX_RECORDS) && ActionRecords.Start(CXX_RECORDS, 0) == 0
  {
    hide RoundTrip.PrintableTable;
    assert Pow2(6) == 64;
    assert ActionRecords.Displacement(CXX_RECORDS, 0) == 0;
    assert ActionRecords.FieldsFit(CXX_RECORDS, 0);
    assert ActionRecords.Start(CXX_RECORDS, 1) == 2;
    SmallTables.SmallPrintable(RUST_ENTRIES, Encoding.Bases(5000, 1000, None, None),
        ActionRecords.PrintRecords([], 0) + []);
    SmallTables.SmallPrintable(CXX_ENTRIES, Encoding.Bases(6000, 2000, None, None),
                               ActionRecords.PrintRecords(CXX_RECORDS, 1) + []);
  }

  function RustTable(): Leb128.Bytes {
    TablesPrint();
    PrintedTables.PrintTable(LAYOUT, RUST_ENTRIES, [], [])
  }

  function CxxTable(): Leb128.Bytes {
    TablesPrint();
    PrintedTables.PrintTable(LAYOUT, CXX_ENTRIES, CXX_RECORDS, [])
  }

  function Tables(view: View): Result<Option<Personalities.Slice>, ()> {
    if view.lsda == None then Ok(None)
    else if view.lsda == Some(5000) then Ok(Some(Personalities.Slice(5000, RustTable())))
    else if view.lsda == Some(6000) then Ok(Some(Personalities.Slice(6000, CxxTable())))
    else Err(())
  }

  function NoBase(view: View): Option<Word> {
    None
  }

  function Host(): Personalities.Source {
    Personalities.Source(Tables, NoBase, NoBase)
  }

  // ---- The personalities ----

  function MatchAll(
    stage: CxxScan.Stage, lsda: Table.Lsda, clause: CxxScan.Clause, selector: SWord): Result<bool, int>
  {
    Ok(true)
  }

  function Runtime(exception: NonZero, class_: Word): CxxScan.Matcher {
    MatchAll
  }

  function Languages(routine: NonZero): EndToEnd.Language {
    if routine == 1 then EndToEnd.Rust else EndToEnd.Cxx(Runtime)
  }

  function TypedPolicies(): Policies {
    EndToEnd.PoliciesOf(Host(), Languages)
  }

  function Unanswered(log: seq<Event>, call: Call): Answer {
    Answer(NONE, [])
  }

  function Dispatched(log: seq<Event>, call: Call): Answer {
    if call.Personality? then
      Dispatch(TypedPolicies()(call.routine), Callbacks.RawOf(Env(MACHINE, Unanswered, 0, 8), call))
    else Answer(NONE, [])
  }

  function Here(): Env {
    Env(MACHINE, Dispatched, 0, 8)
  }

  lemma HereIsTyped()
    ensures Typed(Here(), TypedPolicies()) && CalmStops(Here().respond)
  {
    hide Dispatch, TypedPolicies, Callbacks.ViewOf;
  }

  /** What the Rust frame sees of itself. */
  function RustView(ra: Word): View {
    View(ra, false, 1000, Some(5000))
  }

  const CXX_VIEW: View := View(2006, false, 2000, Some(6000))

  lemma Views(ra: Word)
    requires ra > 0
    ensures FrameView(Here(), Frames(ra)[0]) == RustView(ra) && FrameView(Here(), Frames(ra)[1]) == CXX_VIEW
    ensures RoutineOf(MACHINE, Frames(ra)[0].info) == Ok(Some(1))
            && RoutineOf(MACHINE, Frames(ra)[1].info) == Ok(Some(2))
  {
  }

  const RUST_BASES: Encoding.Bases := Encoding.Bases(5000, 1000, None, None)

  function RustLsda(): (r: Table.Lsda)
    ensures Table.NewLsda(RustTable(), RUST_BASES, Encoding.Little) == Ok(r)
  {
    TablesPrint();
    PrintedTables.CompiledParses(LAYOUT, RUST_BASES, RUST_ENTRIES, [], []);
    Table.NewLsda(RustTable(), RUST_BASES, Encoding.Little).value
  }

  lemma RustParses(ra: Word)
    ensures Personalities.LsdaOf(Host(), RustView(ra)) == Ok(Some(RustLsda()))
  {
    hide CxxTable, RustTable, Table.NewLsda, RustLsda;
    var _ := RustLsda();
  }

  lemma RustScans(offset: Word)
    requires offset < 100
    ensures PrintedTables.RustDecided(RustLsda(), 1000, RUST_ENTRIES, [], offset, 1000 + offset)
  {
    hide PrintedTables.PrintTable, Table.NewLsda, PrintedTables.Compiled, PrintedTables.RustDecided, RustLsda;
    TablesPrint();
    PrintedTables.RustDecides(LAYOUT, RUST_BASES, RUST_ENTRIES, [], [], offset);
  }

  /** What a printed table says at an entry without actions. */
  lemma RustScansAt(
    lsda: Table.Lsda, base: Word, entries: seq<RoundTrip.Entry>, offset: Word, pc: Word, i: nat)
    requires PrintedTables.RustDecided(lsda, base, entries, [], offset, pc)
    requires PrintedTables.FirstAt(entries, i, offset) && i < |entries| && entries[i].action == 0
    ensures base + entries[i].landing < WORD
    ensures RustScan.Scan(lsda, pc) == Ok(PrintedTables.RustMeans(entries[i], None, base))
  {
    hide RustScan.Scan, PrintedTables.RustMeans;
  }

  lemma RustScansNothing(lsda: Table.Lsda, base: Word, entries: seq<RoundTrip.Entry>, offset: Word, pc: Word)
    requires PrintedTables.RustDecided(lsda, base, entries, [], offset, pc)
    requires PrintedTables.Uncovered(entries, offset)
    ensures RustScan.Scan(lsda, pc) == Ok(RustScan.Terminate)
  {
    hide RustScan.Scan, PrintedTables.RustMeans;
  }

  /** The Rust frame has a cleanup at offset 5, nothing to do at offset 15, and terminates at offset 25. */
  lemma RustActs()
    ensures RustScan.Scan(RustLsda(), 1005) == Ok(RustScan.Cleanup(1100))
    ensures RustScan.Scan(RustLsda(), 1015) == Ok(RustScan.NoPad)
    ensures RustScan.Scan(RustLsda(), 1025) == Ok(RustScan.Terminate)
  {
    hide RustLsda, RustScan.Scan, PrintedTables.RustDecided, PrintedTables.FirstAt, PrintedTables.Uncovered;
    RustCovers();
    RustScans(5);
    RustScans(15);
    RustScans(25);
    RustScansAt(RustLsda(), 1000, RUST_ENTRIES, 5, 1005, 0);
    RustScansAt(RustLsda(), 1000, RUST_ENTRIES, 15, 1015, 1);
    RustScansNothing(RustLsda(), 1000, RUST_ENTRIES, 25, 1025);
  }

  lemma RustCovers()
    ensures PrintedTables.FirstAt(RUST_ENTRIES, 0, 5) && PrintedTables.FirstAt(RUST_ENTRIES, 1, 15)
    ensures PrintedTables.Uncovered(RUST_ENTRIES, 25)
  {
  }

  /** The matcher accepts the one filter of the C++ frame, in either stage. */
  lemma FilterAccepted(lsda: Table.Lsda, stage: CxxScan.Stage)
    ensures ActionRecords.LinksInside(CXX_RECORDS)
    ensures PrintedTables.Accepts(MatchAll, stage, lsda, CXX_RECORDS, 0, 0, -1)
  {
    var items := ActionRecords.Along(CXX_RECORDS, 0, |lsda.bytes| + 1);
    assert items == [Table.NewKind(-1)];
    assert CxxScan.Selects(MatchAll, stage, lsda, items[0], -1);
  }

  const CXX_BASES: Encoding.Bases := Encoding.Bases(6000, 2000, None, None)

  function CxxLsda(): (r: Table.Lsda)
    ensures Table.NewLsda(CxxTable(), CXX_BASES, Encoding.Little) == Ok(r)
  {
    TablesPrint();
    PrintedTables.CompiledParses(LAYOUT, CXX_BASES, CXX_ENTRIES, CXX_RECORDS, []);
    Table.NewLsda(CxxTable(), CXX_BASES, Encoding.Little).value
  }

  /** The C++ frame selects its filter at offset 5, in either stage. */
  lemma CxxScans(stage: CxxScan.Stage)
    ensures CxxScan.Scan(MatchAll, stage, CxxLsda(), 2005) == Ok(CxxScan.Action.Handler(2100, -1))
  {
    hide PrintedTables.PrintTable, Table.NewLsda, PrintedTables.Compiled, CxxScan.OpenSite, CxxScan.Scan,
         PrintedTables.Accepts, CxxScan.Clean, CxxLsda;
    TablesPrint();
    assert PrintedTables.FirstAt(CXX_ENTRIES, 0, 5) && PrintedTables.Names(CXX_ENTRIES[0], CXX_RECORDS, 0);
    PrintedTables.CxxDecides(LAYOUT, CXX_BASES, CXX_ENTRIES, CXX_RECORDS, [], 5, MatchAll, stage);
    FilterAccepted(CxxLsda(), stage);
  }

  lemma CxxParses()
    ensures Personalities.LsdaOf(Host(), CXX_VIEW) == Ok(Some(CxxLsda()))
  {
    hide CxxTable, RustTable, Table.NewLsda, CxxLsda;
    var _ := CxxLsda();
  }

  /** A matcher that ignores the stage repeats itself. */
  lemma MatchAllRepeats(lsda: Table.Lsda, pc: Word)
    ensures CxxScan.RepeatsAt(MatchAll, lsda, pc)
  {
    hide CxxScan.OpenSite, CxxScan.CatchClause, CxxScan.Decided;
  }

  // ---- What the frames decide ----

  lemma PoliciesAre()
    ensures TypedPolicies()(1) == Personalities.RustPolicy(Host())
    ensures TypedPolicies()(2) == Personalities.CxxPolicy(Host(), Runtime)
  {
    hide Host, Personalities.RustPolicy, Personalities.CxxPolicy;
    assert Languages(1) == EndToEnd.Rust && Languages(2) == EndToEnd.Cxx(Runtime);
    var p := EndToEnd.PoliciesOf(Host(), Languages);
    assert TypedPolicies() == p;
    assert p(1) == EndToEnd.PolicyOf(Host(), Languages(1));
    assert p(2) == EndToEnd.PolicyOf(Host(), Languages(2));
  }

  /** The decisions of a Rust policy by the scan of the call site. */
  lemma RustPolicyDecides(
    source: Personalities.Source, view: View, exception: NonZero, class_: Word, lsda: Table.Lsda,
    action: RustScan.Action)
    requires Personalities.LsdaOf(source, view) == Ok(Some(lsda))
    requires RustScan.Scan(lsda, view.Site()) == Ok(action)
    ensures action.Cleanup? ==>
              PolicyDecision(Personalities.RustPolicy(source), view, exception, class_, Phase.Search) == GoesOn
    ensures PolicyDecision(Personalities.RustPolicy(source), view, exception, class_, Phase.Cleanup(false))
            == if action.Terminate? then Fails else if action.NoPad? then GoesOn else Enters(action.pad, 0)
  {
    hide Personalities.LsdaOf, RustScan.Scan;
    assert Personalities.RustAction(source, view) == Ok(action);
    hide Personalities.RustAction;
  }

  lemma RustDecides(ra: Word)
    requires ra in {1006, 1016, 1026}
    ensures ra == 1006 ==> PolicyDecision(TypedPolicies()(1), RustView(ra), 8, 0, Phase.Search) == GoesOn
    ensures PolicyDecision(TypedPolicies()(1), RustView(ra), 8, 0, Phase.Cleanup(false))
            == if ra == 1006 then Enters(1100, 0) else if ra == 1016 then GoesOn else Fails
  {
    hide Personalities.LsdaOf, Host, TypedPolicies, RustLsda, RustScan.Scan, PolicyDecision, Personalities.RustPolicy;
    PoliciesAre();
    RustParses(ra);
    RustActs();
    var action :=
      if ra == 1006 then RustScan.Cleanup(1100) else if ra == 1016 then RustScan.NoPad else RustScan.Terminate;
    RustPolicyDecides(Host(), RustView(ra), 8, 0, RustLsda(), action);
  }

  /** A C++ policy whose scans select a handler claims the exception and enters that handler. */
  lemma CxxPolicyDecides(
    source: Personalities.Source, runtime: Personalities.Runtime, view: View, exception: NonZero, class_: Word,
    lsda: Table.Lsda, pad: NonZero, selector: SWord)
    requires Personalities.LsdaOf(source, view) == Ok(Some(lsda))
    requires forall stage ::
               CxxScan.Scan(runtime(exception, class_), stage, lsda, view.Site())
                   == Ok(CxxScan.Action.Handler(pad, selector))
    ensures PolicyDecision(Personalities.CxxPolicy(source, runtime), view, exception, class_, Phase.Search) == Claim
    ensures PolicyDecision(Personalities.CxxPolicy(source, runtime), view, exception, class_, Phase.Handler)
            == Enters(pad, selector)
  {
    hide Personalities.LsdaOf, CxxScan.Scan;
    var m := runtime(exception, class_);
    assert CxxScan.Scan(m, CxxScan.Stage.Search, lsda, view.Site()) == Ok(CxxScan.Action.Handler(pad, selector));
    assert CxxScan.Scan(m, CxxScan.Stage.Handler, lsda, view.Site()) == Ok(CxxScan.Action.Handler(pad, selector));
    assert Personalities.CxxSearch(source, m, view) == HandlerFound;
    assert Personalities.CxxHandler(source, m, view) == HandlerDecision.Install(pad, selector);
  }

  lemma CxxDecides()
    ensures PolicyDecision(TypedPolicies()(2), CXX_VIEW, 8, 0, Phase.Search) == Claim
    ensures PolicyDecision(TypedPolicies()(2), CXX_VIEW, 8, 0, Phase.Handler) == Enters(2100, -1)
    ensures Personalities.MatcherRepeats(Host(), Runtime(8, 0), CXX_VIEW)
  {
    hide Personalities.LsdaOf, Host, CxxScan.Scan, CxxScan.RepeatsAt, CxxLsda, TypedPolicies, PolicyDecision,
         Personalities.CxxPolicy;
    PoliciesAre();
    CxxParses();
    assert CXX_VIEW.Site() == 2005 && Runtime(8, 0) == MatchAll;
    forall stage
      ensures CxxScan.Scan(Runtime(8, 0), stage, CxxLsda(), CXX_VIEW.Site()) == Ok(CxxScan.Action.Handler(2100, -1))
    {
      CxxScans(stage);
    }
    CxxPolicyDecides(Host(), Runtime, CXX_VIEW, 8, 0, CxxLsda(), 2100, -1);
    MatchAllRepeats(CxxLsda(), 2005);
  }

  /** What the two frames decide in the phases of this run. */
  lemma Decisions(ra: Word)
    requires ra in {1006, 1016, 1026}
    ensures ra == 1006 ==> LetsPass(Here(), TypedPolicies(), Frames(ra)[0])
    ensures DecisionOf(Here(), TypedPolicies(), Frames(ra)[0], Phase.Cleanup(false))
            == if ra == 1006 then Enters(1100, 0) else if ra == 1016 then GoesOn else Fails
    ensures IsHandler(Here(), TypedPolicies(), Frames(ra)[1])
    ensures DecisionOf(Here(), TypedPolicies(), Frames(ra)[1], Phase.Handler) == Enters(2100, -1)
    ensures EndToEnd.Repeating(Here(), Host(), Languages, Frames(ra)[1])
  {
    hide FrameView, PolicyDecision, TypedPolicies, Personalities.MatcherRepeats, Host, RoutineOf;
    Views(ra);
    RustDecides(ra);
    CxxDecides();
  }

  // ---- The run ----

  function FirstEntry(): Entry {
    BeginEntry(Here(), (0, 0), [], Frames(1006), BOTTOM)
  }

  /** The raise, and the resume with the Rust frame standing at `ra`. */
  function Legs(ra: Word): seq<Leg>
    requires ra > 0
  {
    var words, log := FirstEntry().words, FirstEntry().passage.log;
    [Leg(Here(), 0, (0, 0), [], Frames(1006), BOTTOM, FirstEntry()),
     Leg(Here(), 0, words, log, Frames(ra), BOTTOM, ResumeEntry(Here(), words, log, Frames(ra), BOTTOM))]
  }

  lemma LegsAre(ra: Word)
    requires ra > 0
    ensures var legs := Legs(ra);
            && |legs| == 2 && legs[0].base == legs[1].base == 0
            && legs[0].env == legs[1].env == Here() && Here().m == MACHINE
            && legs[0].before == (0, 0) && legs[0].log == [] && legs[0].frames == Frames(1006)
            && legs[0].bottom == legs[1].bottom == BOTTOM && legs[0].entry == FirstEntry()
            && legs[1].before == FirstEntry().words && legs[1].log == FirstEntry().passage.log
            && legs[1].frames == Frames(ra) && ResumedLeg(legs[1])
    ensures |Frames(ra)| == |Frames(1006)| == 2 && Frames(ra)[1] == Frames(1006)[1]
    ensures FirstEntry() == BeginEntry(Here(), (0, 0), [], Frames(1006), BOTTOM)
    ensures TypedPolicies() == EndToEnd.PoliciesOf(Host(), Languages)
  {
    hide BeginEntry, ResumeEntry, BOTTOM, EndToEnd.PoliciesOf;
  }

  /** The search passes the Rust frame and finds the C++ frame. */
  lemma SearchFinds()
    ensures SearchPass(Here(), [], Frames(1006), BOTTOM, 0).found == Ok((1, 32))
  {
    hide Ask, Here, DecisionOf, TypedPolicies, ReplyIs, Passed, Claims, KeyOf, BOTTOM, Typed, Grounded, Frames,
         Unrolls, EndToEnd.Repeating, FirstEntry, Legs, BeginEntry, ResumedLeg, Growing;
    LegsAre(1006);
    StackStands(1006);
    Decisions(1006);
    HereIsTyped();
    var frames := Frames(1006);
    assert frames[1..] == [frames[1]];
    var env, policies := Here(), TypedPolicies();
    var (log1, reply1) := Ask(env, [], frames[0], ACTION_SEARCH);
    var (log2, reply2) := Ask(env, log1, frames[1], ACTION_SEARCH);
    Answered(env, policies, [], frames[0], Phase.Search);
    Answered(env, policies, log1, frames[1], Phase.Search);
    DecisionBranches(env, DecisionOf(env, policies, frames[0], Phase.Search), reply1);
    DecisionBranches(env, DecisionOf(env, policies, frames[1], Phase.Search), reply2);
    assert SearchPass(env, log1, frames[1..], BOTTOM, 1).found == Ok((1, 32));
  }

  /** The raise stops at the cleanup of the Rust frame. */
  lemma FirstStops()
    ensures var entry := FirstEntry();
            && entry.words == (0, 32)
            && entry.passage.outcome.Restored? && entry.passage.outcome.depth == 0
            && RA in entry.passage.outcome.registers && entry.passage.outcome.registers[RA] == 1100
            && |entry.passage.visits| == 1 && entry.passage.visits[0].actions == ACTION_CLEANUP
  {
    hide Ask, Here, DecisionOf, TypedPolicies, ReplyIs, Passed, Installs, KeyOf, BOTTOM, Typed, Grounded, SearchPass,
         BitOr, LeaveFrame, Frames, Unrolls, EndToEnd.Repeating, FirstEntry, Legs, ResumedLeg, Growing;
    LegsAre(1006);
    SearchFinds();
    StackStands(1006);
    Decisions(1006);
    HereIsTyped();
    var frames := Frames(1006);
    var env, policies := Here(), TypedPolicies();
    var log := SearchPass(env, [], frames, BOTTOM, 0).log;
    var reply := Ask(env, log, frames[0], ACTION_CLEANUP).1;
    var decision := DecisionOf(env, policies, frames[0], Phase.Cleanup(false));
    Answered(env, policies, log, frames[0], Phase.Cleanup(false));
    GroundedKeeps(MACHINE, frames, BOTTOM);
    LeaveLands(env, frames[0], decision, reply, 0);
  }

  lemma SameItself(m: Machine, a: Activation)
    ensures SameFrame(m, a, m, a)
  {
  }

  /** Both entries make a run, wherever in its function the Rust frame resumes. */
  lemma RunHolds(ra: Word)
    requires 1000 < ra <= 1100
    ensures Run(Legs(ra))
  {
    hide Legs, Here, FirstEntry, SearchPass, BeginEntry, ResumeEntry, KeyOf, BOTTOM, Grounded, Frames, Unrolls,
         SameFrame, Growing;
    LegsAre(ra);
    SearchFinds();
    FirstStops();
    StackStands(1006);
    StackStands(ra);
    var legs := Legs(ra);
    SameItself(legs[0].env.m, legs[0].frames[1]);
    assert !Has(ACTION_CLEANUP, ACTION_HANDLER);
    assert Follows(legs[0], legs[1]);
    assert ResumesCleanup(legs, 1);
  }

  /** What holds of the whole run: it is typed and grounded, and the selected matcher repeats itself. */
  lemma HypothesesHold(ra: Word)
    requires ra in {1016, 1026}
    ensures Run(Legs(ra)) && Legs(ra)[0].Found() == Ok((1, 32))
    ensures Typed(Legs(ra)[0].env, TypedPolicies()) && Typed(Legs(ra)[1].env, TypedPolicies())
    ensures EndToEnd.Repeating(Legs(ra)[0].env, Host(), Languages, Legs(ra)[0].frames[1])
    ensures Grounded(Legs(ra)[0].env.m, Legs(ra)[0].frames, BOTTOM)
    ensures Grounded(Legs(ra)[1].env.m, Legs(ra)[1].frames, BOTTOM)
    ensures Unrolls(MACHINE, Known(16, 1006), Return, Legs(ra)[0].frames, BOTTOM)
    ensures Unrolls(MACHINE, Known(16, ra), Return, Legs(ra)[1].frames, BOTTOM)
  {
    hide Run, Unrolls, Grounded, EndToEnd.Repeating, SearchPass, FirstEntry, ResumeEntry, Frames, Typed, Legs, Here,
         TypedPolicies, ResumedLeg, BOTTOM;
    LegsAre(ra);
    RunHolds(ra);
    SearchFinds();
    HereIsTyped();
    Decisions(1006);
    StackStands(1006);
    StackStands(ra);
  }

  /** A delivery past a frame that lets the exception go on is at the handler. */
  lemma DeliveredBehind(env: Env, policies: Policies, frames: seq<Activation>, outcome: Outcome)
    requires Delivered(env, policies, frames, 1, 0, outcome)
    requires DecisionOf(env, policies, frames[0], Phase.Cleanup(false)).GoesOn?
    ensures outcome.Restored? && outcome.depth == 1
    ensures Lands(env, frames[1], DecisionOf(env, policies, frames[1], Phase.Handler), outcome.registers)
  {
    hide DecisionOf;
  }

  /**
   * A whole run under all hypotheses of the theorems: the raise finds the handler and enters the cleanup at 1100.
   * Resumed where the Rust frame has nothing more to do, the unwinder enters the handler at 2100, with the
   * selector of its filter.
   */
  lemma RunReachesHandler()
    ensures var legs := Legs(1016);
            && Run(legs) && |legs| == 2
            && legs[0].Outcome().Restored? && legs[0].Pad() == 0
            && RA in legs[0].Outcome().registers && legs[0].Outcome().registers[RA] == 1100
            && legs[1].Outcome().Restored? && legs[1].Pad() == 1 && !CleanupPad(legs[1])
            && RA in legs[1].Outcome().registers && legs[1].Outcome().registers[RA] == 2100
            && RDX in legs[1].Outcome().registers && legs[1].Outcome().registers[RDX] == WORD - 1
  {
    hide Here, Legs, FirstEntry, ResumeEntry, Frames, Run, Typed, Grounded, Host, TypedPolicies, DecisionOf,
         EndToEnd.Repeating, EndToEnd.Usable, EndToEnd.PoliciesOf, SearchPass, BOTTOM, Delivered, ResumedLeg, Unrolls,
         BeginEntry, Kept, CleanupPad;
    LegsAre(1016);
    HypothesesHold(1016);
    FirstStops();
    Decisions(1016);
    var leg := Legs(1016)[1];
    EndToEnd.UsableCleansUp(leg.env, Host(), Languages, leg.frames[0]);
    EndToEnd.MixedStackDelivers(Host(), Languages, Legs(1016), 1);
    DeliveredBehind(leg.env, TypedPolicies(), leg.frames, leg.Outcome());
    RunKeeps(Legs(1016), 1);
    HandlerIsTold(Legs(1016)[0], leg);
  }

  lemma HandlerIsTold(first: Leg, leg: Leg)
    requires Kept(first, 1, 32, leg) && leg.base == 0 && leg.Outcome().Restored? && leg.Outcome().depth == 1
    ensures !CleanupPad(leg)
  {
    hide SameFrame, KeyOf;
    Masks();
    assert VisitsKept(1, leg);
    hide Kept;
    var last := leg.Visits()[|leg.Visits()| - 1];
    assert last.actions == 6;
  }

  /** Resumed at a terminate site, the same run traps. */
  lemma ResumeTraps()
    ensures var legs := Legs(1026);
            Run(legs) && |legs| == 2 && legs[0].Outcome().Restored? && legs[1].Outcome() == Trapped
  {
    hide Here, Legs, FirstEntry, ResumeEntry, Frames, Run, Typed, Grounded, Host, TypedPolicies, DecisionOf,
         EndToEnd.Repeating, EndToEnd.Usable, EndToEnd.PoliciesOf, SearchPass, BOTTOM, Delivered, ResumedLeg, Unrolls,
         BeginEntry;
    LegsAre(1026);
    HypothesesHold(1026);
    FirstStops();
    Decisions(1026);
    var leg := Legs(1026)[1];
    EndToEnd.UsableCleansUp(leg.env, Host(), Languages, leg.frames[0]);
    EndToEnd.MixedStackDelivers(Host(), Languages, Legs(1026), 1);
  }
}
