/** Inputs at which the code does less than its callers might expect, one for each weakness. */
module FailingInputs {
  import opened Words
  import opened Leb128
  import opened Encoding
  import opened Table
  import opened RoundTrip
  import opened SmallTables
  import CallFrame
  import Iterators
  import Passes
  import Protocol
  import Registers
  import Scenario
  import Stack
  import TypeTable

  // ---- The early exit ----

  const UNSORTED: seq<Entry> := [Entry(10, 5, 100, 0), Entry(0, 5, 100, 0)]

  const BASES: Bases := Bases(0, 1000, None, None)

  /** In a parsed table that is out of order the early exit loses an entry that covers the counter. */
  lemma EarlyExitLoses()
    ensures var r := NewLsda(PrintLsda(Small(None), UNSORTED, []), BASES, Little);
            && r.Ok? && Iterators.Decodes(Sites(r.value))
            && |Sites(r.value)| == 2 && Covers(Sites(r.value)[1].value, 2)
            && SiteAt(r.value, 1002) == Ok(None)
  {
    hide NewLsda, PrintLsda, Sites, PrintableTable;
    SmallPrintable(UNSORTED, BASES, []);
    TableRoundTrip(Small(None), BASES, UNSORTED, []);
    var lsda := NewLsda(PrintLsda(Small(None), UNSORTED, []), BASES, Little).value;
    assert Reports(Sites(lsda)[0], UNSORTED[0], 1000) && Reports(Sites(lsda)[1], UNSORTED[1], 1000);
    Iterators.FindSiteStep(Sites(lsda), 2);
  }

  // ---- The aligned application ----

  /** Eight bytes of one entry that start at offset five. */
  const ALIGNED: Layout := Small(Some(Types(10, ALIGN)))

  const ENTRY: Bytes := [1, 0, 0, 0, 0, 0, 0, 0]

  /** In a parsed table with room for one aligned entry, that entry is rejected. */
  lemma AlignedIsRejected()
    ensures var r := NewLsda(PrintLsda(ALIGNED, [], ENTRY), Bases(0, 1000, None, None), Little);
            && r.Ok? && r.value.types.Some?
            && 8 <= r.value.types.value.end == |r.value.bytes| && r.value.bytes[r.value.types.value.end - 8..] == ENTRY
            && GetType(r.value.types.value, r.value, 1).Err?
  {
    hide NewLsda, GetType;
    AlignedIsPrintable();
    TableRoundTrip(ALIGNED, BASES, [], ENTRY);
    hide PrintLsda, PrintableTable, Recovered;
    var lsda := NewLsda(PrintLsda(ALIGNED, [], ENTRY), BASES, Little).value;
    TypeTable.AlignedEntryIff(lsda.types.value, lsda, 1);
  }

  lemma AlignedIsPrintable()
    ensures PrintableTable(ALIGNED, BASES, [], ENTRY)
    ensures PrintLsda(ALIGNED, [], ENTRY) == [OMIT, ALIGN, 10, ULEB, 0] + ENTRY
    ensures TypesAt(ALIGNED) == Some(Types(13, ALIGN))
  {
    assert |EncodeUleb(0)| == 1 && |EncodeUleb(10)| == 1;
  }

  // ---- Frame keys ----

  /** A frame that pushes one byte, and whose caller was interrupted by a signal. */
  const SIGNAL_ROW: CallFrame.Row :=
    CallFrame.Row(CallFrame.RegisterAndOffset(Registers.RSP, 1), [(Registers.RA, CallFrame.Constant(2006))], 0)

  const LAST_ROW: CallFrame.Row :=
    CallFrame.Row(CallFrame.RegisterAndOffset(Registers.RSP, 16), [(Registers.RA, CallFrame.Constant(0))], 0)

  const SIGNAL_FDE: CallFrame.Fde :=
    CallFrame.Fde(SIGNAL_ROW, 1000, true, 0, None, None, Some(CallFrame.Direct(1)))

  const LAST_FDE: CallFrame.Fde := CallFrame.Fde(LAST_ROW, 2000, false, 0, None, None, Some(CallFrame.Direct(2)))

  function FdeAt(address: Word): Result<CallFrame.Fde, Registers.UnwindError> {
    if address == 1005 then Ok(SIGNAL_FDE) else if address == 2006 then Ok(LAST_FDE) else Err(Registers.Metadata)
  }

  function NoMemory(address: Word, size: nat): Option<Word> {
    None
  }

  const MACHINE: CallFrame.Machine := CallFrame.Machine(FdeAt, NoMemory, Scenario.Unevaluated)

  /** The personality at 2 handles the exception, and nobody installs anything. */
  function Answers(log: seq<Passes.Event>, call: Passes.Call): Protocol.Answer {
    var handles := call.routine == 2 && call.actions == Protocol.ACTION_SEARCH;
    Protocol.Answer(if handles then Protocol.HANDLER else Protocol.CONTINUE, [])
  }

  const ENV: Passes.Env := Passes.Env(MACHINE, Answers, 0, 8)

  const YOUNGER: Stack.Activation :=
    Stack.Activation(Scenario.Known(16, 1006), CallFrame.Return, CallFrame.Info(1005, SIGNAL_FDE))

  const OLDER: Stack.Activation :=
    Stack.Activation(Scenario.Known(17, 2006), CallFrame.Instruction, CallFrame.Info(2006, LAST_FDE))

  const BOTTOM: Stack.Bottom := Stack.EndOfStack(Scenario.Known(33, 0), CallFrame.Return)

  /** A row with a constant return address and the frame size of its function. */
  lemma Calls(sp: Word, ra: Word, size: SWord, back: Word)
    requires 0 <= size && sp + size < WORD
    ensures var row := CallFrame.Row(CallFrame.RegisterAndOffset(Registers.RSP, size),
                                     [(Registers.RA, CallFrame.Constant(back))], 0);
            CallFrame.CallerOf(MACHINE, row, Scenario.Known(sp, ra)) == Ok(Scenario.Known(sp + size, back))
  {
    var rules := [(Registers.RA, CallFrame.Constant(back))];
    var row := CallFrame.Row(CallFrame.RegisterAndOffset(Registers.RSP, size), rules, 0);
    var image := Scenario.Known(sp, ra);
    var cfa := sp + size;
    assert CallFrame.CfaOf(MACHINE, row, image) == Ok(cfa);
    assert CallFrame.RuleValue(MACHINE, cfa, image, Registers.RA, CallFrame.Constant(back)) == Ok(Some(back));
    hide CallFrame.RuleValue, CallFrame.CfaOf;
    var rest := rules[1..];
    var caller := image[Registers.RSP := cfa] - {Registers.RA};
    var done := caller[Registers.RA := back];
    assert rest == [] && CallFrame.ApplyRules(MACHINE, cfa, image, rest, done) == Ok(done);
    assert CallFrame.ApplyRules(MACHINE, cfa, image, rules, caller) == Ok(done);
    CallFrame.SameImage(done, Scenario.Known(cfa, back));
  }

  lemma SignalStackStands()
    ensures Stack.Unrolls(MACHINE, Scenario.Known(16, 1006), CallFrame.Return, [YOUNGER, OLDER], BOTTOM)
    ensures Stack.Key(YOUNGER) == Stack.Key(OLDER) == Some(16)
  {
    hide CallFrame.CallerOf;
    Calls(16, 1006, 1, 2006);
    Calls(17, 2006, 16, 0);
    var frames := [YOUNGER, OLDER];
    assert frames[1..] == [OLDER] && [OLDER][1..] == [];
    assert Stack.Unrolls(MACHINE, Scenario.Known(33, 0), CallFrame.Return, [], BOTTOM);
    assert Stack.Unrolls(MACHINE, Scenario.Known(17, 2006), CallFrame.Instruction, [OLDER], BOTTOM);
  }

  /**
   * On a stack that the unwinder can stand on, the search picks the older frame, and phase two tells the younger
   * one that it handles the exception, because they share a key.
   */
  lemma ImpostorIsMarked()
    ensures var frames := [YOUNGER, OLDER];
            var searched := Passes.SearchPass(ENV, [], frames, BOTTOM, 0);
            var visits := Passes.NormalPass(ENV, searched.log, frames, BOTTOM, 16, 0).visits;
            && Stack.Unrolls(MACHINE, Scenario.Known(16, 1006), CallFrame.Return, frames, BOTTOM)
            && searched.found == Ok((1, 16))
            && |visits| == 1 && visits[0].depth == 0
            && visits[0].actions == BitOr(Protocol.ACTION_CLEANUP, Protocol.ACTION_HANDLER)
  {
    SignalStackStands();
    Protocol.Masks();
    hide Stack.Unrolls, Stack.KeyOf, BOTTOM, BitOr;
    var frames := [YOUNGER, OLDER];
    assert frames[1..] == [OLDER];
    var log1 := Passes.Ask(ENV, [], YOUNGER, Protocol.ACTION_SEARCH).0;
    assert Passes.SearchPass(ENV, log1, [OLDER], BOTTOM, 1).found == Ok((1, 16));
  }
}
