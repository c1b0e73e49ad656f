/**
 * What the personalities decide about a frame whose table was printed: every phase of the Rust and the C++ policy, by
 * the entry that covers the call site and the discriminators of its records.
 */
module PrintedFrames {
  import opened Words
  import opened Leb128
  import opened Encoding
  import opened Protocol
  import opened RoundTrip
  import opened ActionRecords
  import opened PrintedTables
  import opened Personalities
  import Table
  import CxxScan
  import RustScan

  /** The bases with which the table of a frame is parsed. */
  function FrameBases(source: Source, view: View): Bases
    requires view.lsda.Some?
  {
    Bases(view.lsda.value, view.start, source.text(view), source.data(view))
  }

  /** The frame has the table that was printed from these entries and records. */
  ghost predicate Printed(
    source: Source, view: View, layout: Layout, entries: seq<Entry>, records: seq<ActionRecord>, after: Bytes)
  {
    && view.lsda.Some? && view.start <= view.Site() && layout.endian == Little
    && Compiled(layout, FrameBases(source, view), entries, records, after)
    && source.bytes(view) == Ok(Some(Slice(view.lsda.value, PrintTable(layout, entries, records, after))))
  }


  /** The call site of the frame, counted from the start of its function. */
  function OffsetOf(view: View): Word
    requires view.start <= view.Site()
  {
    view.Site() - view.start
  }

  /** Entry `i` covers the call site, with the landing pad at `pad`. */
  predicate Covering(source: Source, view: View, layout: Layout, entries: seq<Entry>, i: nat, pad: int)
    requires view.lsda.Some? && view.start <= view.Site()
  {
    && FirstAt(entries, i, OffsetOf(view)) && i < |entries|
    && pad == LandingBase(layout, FrameBases(source, view)) + entries[i].landing
  }

  lemma PrintedParses(
    source: Source, view: View, layout: Layout, entries: seq<Entry>, records: seq<ActionRecord>, after: Bytes)
    requires Printed(source, view, layout, entries, records, after)
    ensures var r := Table.NewLsda(PrintTable(layout, entries, records, after), FrameBases(source, view), Little);
            r.Ok? && LsdaOf(source, view) == Ok(Some(r.value))
  {
    hide Table.NewLsda, Compiled, PrintTable, Represents;
    CompiledParses(layout, FrameBases(source, view), entries, records, after);
  }

  // ---- Rust ----

  /** The discriminator that decides for Rust: that of the first record, if the entry names one. */
  predicate FirstIndex(e: Entry, records: seq<ActionRecord>, index: Option<SWord>) {
    if index.None? then e.action == 0
    else exists j | 0 <= j < |records| :: Names(e, records, j) && records[j].index == index.value
  }

  /** The three phases of a Rust frame by landing pad and first discriminator. */
  predicate RustFrame(
    policy: Policy, view: View, exception: NonZero, class_: Word, landing: Word, pad: int, index: int)
  {
    if landing == 0 then
      && policy.search(view, exception, class_) == SearchDecision.Continue
      && (forall forced :: policy.cleanup(view, exception, class_, forced) == CleanupDecision.Continue)
      && policy.handler(view, exception, class_) == HandlerDecision.Fatal
    else
      && 0 < pad < WORD
      && policy.search(view, exception, class_) == (if index == 0 then SearchDecision.Continue else HandlerFound)
      && policy.cleanup(view, exception, class_, false) == CleanupDecision.Install(pad, 0)
      && policy.cleanup(view, exception, class_, true)
         == (if index < 0 then CleanupDecision.Continue else CleanupDecision.Install(pad, 0))
      && policy.handler(view, exception, class_)
         == (if index == 0 then HandlerDecision.Fatal else HandlerDecision.Install(pad, 0))
  }

  /** A frame outside all entries ends the process in every phase. */
  predicate FatalFrame(policy: Policy, view: View, exception: NonZero, class_: Word) {
    && policy.search(view, exception, class_) == SearchDecision.Fatal
    && (forall forced :: policy.cleanup(view, exception, class_, forced) == CleanupDecision.Fatal)
    && policy.handler(view, exception, class_) == HandlerDecision.Fatal
  }

  lemma RustScansPrinted(
    source: Source, view: View, layout: Layout, entries: seq<Entry>, records: seq<ActionRecord>, after: Bytes)
    requires Printed(source, view, layout, entries, records, after)
    ensures LsdaOf(source, view).Ok? && LsdaOf(source, view).value.Some?
    ensures RustDecided(LsdaOf(source, view).value.value, LandingBase(layout, FrameBases(source, view)),
                        entries, records, OffsetOf(view), view.Site())
  {
    hide Table.NewLsda, Compiled, PrintTable, RustDecided, LsdaOf;
    PrintedParses(source, view, layout, entries, records, after);
    RustDecides(layout, FrameBases(source, view), entries, records, after, OffsetOf(view));
  }

  /**
   * A Rust frame with a printed table: its search claims the exception exactly where the entry was printed with a
   * nonzero first discriminator, its handler enters the printed pad there, and its cleanup enters the printed pad
   * unless a filter is forced. Outside all entries it is fatal.
   */
  lemma RustFrameDecides(
    source: Source, view: View, layout: Layout, entries: seq<Entry>, records: seq<ActionRecord>, after: Bytes,
    exception: NonZero, class_: Word)
    requires Printed(source, view, layout, entries, records, after)
    ensures Uncovered(entries, OffsetOf(view)) ==> FatalFrame(RustPolicy(source), view, exception, class_)
    ensures forall i: nat, pad, index |
              Covering(source, view, layout, entries, i, pad) && FirstIndex(entries[i], records, index) ::
              RustFrame(RustPolicy(source), view, exception, class_, entries[i].landing, pad,
                        if index.Some? then index.value else 0)
  {
    hide LsdaOf, RustScan.Scan, Compiled, PrintTable, FirstAt, Start, RustPolicy;
    RustScansPrinted(source, view, layout, entries, records, after);
    Personalities.RustMeans(source, view, exception, class_);
    var lsda := LsdaOf(source, view).value.value;
    var base := LandingBase(layout, FrameBases(source, view));
    forall i: nat, pad, index |
      Covering(source, view, layout, entries, i, pad) && FirstIndex(entries[i], records, index)
      ensures RustFrame(RustPolicy(source), view, exception, class_, entries[i].landing, pad,
                        if index.Some? then index.value else 0)
    {
      assert base + entries[i].landing < WORD;
      var action := PrintedTables.RustMeans(entries[i], index, base);
      assert RustScan.Scan(lsda, view.Site()) == Ok(action);
      assert RustScans(source, view, action);
      var first := if index.Some? then index.value else 0;
      RustFrameIs(source, view, exception, class_, action, entries[i].landing, pad, first);
    }
  }

  lemma RustFrameIs(
    source: Source, view: View, exception: NonZero, class_: Word, action: RustScan.Action, landing: Word, pad: int,
    index: int)
    requires RustScans(source, view, action) && (landing > 0 ==> 0 < pad < WORD)
    requires action == if landing == 0 then RustScan.NoPad else if index == 0 then RustScan.Cleanup(pad)
                       else if index > 0 then RustScan.Catch(pad) else RustScan.Filter(pad)
    ensures RustFrame(RustPolicy(source), view, exception, class_, landing, pad, index)
  {
    hide LsdaOf, RustScan.Scan;
  }

  // ---- C++ ----

  /** The cleanup of a C++ frame, forced or not: the printed pad if there is cleanup work, and otherwise nothing. */
  predicate CleansAs(
    policy: Policy, view: View, exception: NonZero, class_: Word, landing: Word, pad: int, work: bool)
  {
    if landing == 0 || !work then
      forall forced :: policy.cleanup(view, exception, class_, forced) == CleanupDecision.Continue
    else
      0 < pad < WORD
      && forall forced :: policy.cleanup(view, exception, class_, forced) == CleanupDecision.Install(pad, 0)
  }

  /** The search and the handler of a C++ frame by the first clause along the links that the matcher accepts. */
  ghost predicate CatchesAs(
    source: Source, runtime: Runtime, view: View, exception: NonZero, class_: Word, landing: Word, pad: int,
    records: seq<ActionRecord>, j: nat)
    requires LsdaOf(source, view).Ok? && LsdaOf(source, view).value.Some? && j < |records| && LinksInside(records)
  {
    var m, lsda := runtime(exception, class_), LsdaOf(source, view).value.value;
    && (CxxPolicy(source, runtime).search(view, exception, class_) == HandlerFound
        <==> landing != 0 && exists k: nat, selector: SWord ::
               Accepts(m, CxxScan.Stage.Search, lsda, records, j, k, selector))
    && forall p, selector ::
         CxxPolicy(source, runtime).handler(view, exception, class_) == HandlerDecision.Install(p, selector)
         <==> landing != 0 && p == pad
              && exists k: nat :: Accepts(m, CxxScan.Stage.Handler, lsda, records, j, k, selector)
  }

  lemma CxxScansPrinted(
    source: Source, view: View, layout: Layout, entries: seq<Entry>, records: seq<ActionRecord>, after: Bytes,
    m: CxxScan.Matcher, stage: CxxScan.Stage)
    requires Printed(source, view, layout, entries, records, after)
    ensures LsdaOf(source, view).Ok? && LsdaOf(source, view).value.Some?
    ensures CxxDecided(m, stage, LsdaOf(source, view).value.value, LandingBase(layout, FrameBases(source, view)),
                       entries, records, OffsetOf(view), view.Site())
  {
    hide Table.NewLsda, Compiled, PrintTable, CxxDecided, LsdaOf;
    PrintedParses(source, view, layout, entries, records, after);
    CxxDecides(layout, FrameBases(source, view), entries, records, after, OffsetOf(view), m, stage);
  }

  /** Whatever the matcher: the cleanup of a C++ frame with a printed table enters exactly the printed cleanup pads. */
  lemma CxxFrameCleans(
    source: Source, view: View, layout: Layout, entries: seq<Entry>, records: seq<ActionRecord>, after: Bytes,
    runtime: Runtime, exception: NonZero, class_: Word)
    requires Printed(source, view, layout, entries, records, after)
    ensures LinksInside(records)
    ensures forall i: nat, pad | Covering(source, view, layout, entries, i, pad) && entries[i].action == 0 ::
              CleansAs(CxxPolicy(source, runtime), view, exception, class_, entries[i].landing, pad, true)
    ensures forall i: nat, pad, j: nat, n: nat |
              && Covering(source, view, layout, entries, i, pad) && Names(entries[i], records, j)
              && Follow(records, j, n).Some? ::
              CleansAs(CxxPolicy(source, runtime), view, exception, class_, entries[i].landing, pad,
                       0 in Follow(records, j, n).value)
  {
    hide LsdaOf, CxxScan.Scan, CxxScan.Clean, Compiled, PrintTable, FirstAt, Start, CxxPolicy, Accepts, Follow;
    CxxScansPrinted(source, view, layout, entries, records, after, runtime(exception, class_), CxxScan.Stage.Search);
    Personalities.CxxMeans(source, runtime, view, exception, class_);
    var base := LandingBase(layout, FrameBases(source, view));
    forall i: nat, pad | Covering(source, view, layout, entries, i, pad) && entries[i].action == 0
      ensures CleansAs(CxxPolicy(source, runtime), view, exception, class_, entries[i].landing, pad, true)
    {
      assert CxxCleans(source, view, PrintedTables.CxxMeans(entries[i], None, base));
    }
    forall i: nat, pad, j: nat, n: nat |
      && Covering(source, view, layout, entries, i, pad) && Names(entries[i], records, j) && Follow(records, j, n).Some?
      ensures CleansAs(CxxPolicy(source, runtime), view, exception, class_, entries[i].landing, pad,
                       0 in Follow(records, j, n).value)
    {
      assert CxxCleans(source, view, PrintedTables.CxxMeans(entries[i], Follow(records, j, n), base));
    }
  }

  /** Outside all entries a C++ frame is fatal, and a circle of links is fatal to its cleanup. */
  lemma CxxFrameFails(
    source: Source, view: View, layout: Layout, entries: seq<Entry>, records: seq<ActionRecord>, after: Bytes,
    runtime: Runtime, exception: NonZero, class_: Word)
    requires Printed(source, view, layout, entries, records, after)
    ensures LinksInside(records)
    ensures Uncovered(entries, OffsetOf(view)) ==> FatalFrame(CxxPolicy(source, runtime), view, exception, class_)
    ensures forall i: nat, pad, j: nat, forced |
              && Covering(source, view, layout, entries, i, pad) && Names(entries[i], records, j)
              && entries[i].landing != 0 && Circular(records, j) ::
              CxxPolicy(source, runtime).cleanup(view, exception, class_, forced) == CleanupDecision.Fatal
  {
    hide LsdaOf, CxxScan.Scan, CxxScan.Clean, Compiled, PrintTable, FirstAt, Start, CxxPolicy, Accepts, Follow,
         Circular;
    CxxScansPrinted(source, view, layout, entries, records, after, runtime(exception, class_), CxxScan.Stage.Search);
    CxxScansPrinted(source, view, layout, entries, records, after, runtime(exception, class_), CxxScan.Stage.Handler);
    Personalities.CxxMeans(source, runtime, view, exception, class_);
  }

  lemma CatchesAsMeans(
    source: Source, runtime: Runtime, view: View, exception: NonZero, class_: Word, e: Entry, base: Word,
    records: seq<ActionRecord>, j: nat)
    requires LsdaOf(source, view).Ok? && LsdaOf(source, view).value.Some? && j < |records| && LinksInside(records)
    requires base + e.landing < WORD
    requires var (m, lsda) := (runtime(exception, class_), LsdaOf(source, view).value.value);
             && ScanDecides(m, CxxScan.Stage.Search, lsda, base, e, records, j, view.Site())
             && ScanDecides(m, CxxScan.Stage.Handler, lsda, base, e, records, j, view.Site())
    ensures CatchesAs(source, runtime, view, exception, class_, e.landing, base + e.landing, records, j)
  {
    hide LsdaOf, CxxScan.Scan, CxxPolicy, Accepts, FailsAt, Follow, Circular;
    Personalities.CxxMeans(source, runtime, view, exception, class_);
    var m, lsda := runtime(exception, class_), LsdaOf(source, view).value.value;
    var r := CxxScan.Scan(m, CxxScan.Stage.Search, lsda, view.Site());
    if r.Ok? && r.value.Handler? {
      assert CxxScans(source, m, CxxScan.Stage.Search, view, CxxScan.Action.Handler(r.value.pad, r.value.selector));
    }
    if k: nat, selector: SWord :| e.landing != 0 && Accepts(m, CxxScan.Stage.Search, lsda, records, j, k, selector) {
      assert r == Ok(CxxScan.Action.Handler(base + e.landing, selector));
      assert CxxScans(source, m, CxxScan.Stage.Search, view, CxxScan.Action.Handler(base + e.landing, selector));
    }
  }

  /**
   * A C++ frame with a printed table claims the exception iff the links of the covering entry lead to a clause that
   * the matcher accepts, and its handler enters the printed pad with the printed discriminator of that clause.
   */
  lemma CxxFrameCatches(
    source: Source, view: View, layout: Layout, entries: seq<Entry>, records: seq<ActionRecord>, after: Bytes,
    runtime: Runtime, exception: NonZero, class_: Word)
    requires Printed(source, view, layout, entries, records, after)
    ensures LsdaOf(source, view).Ok? && LsdaOf(source, view).value.Some? && LinksInside(records)
    ensures forall i: nat, pad, j: nat |
              Covering(source, view, layout, entries, i, pad) && Names(entries[i], records, j) ::
              CatchesAs(source, runtime, view, exception, class_, entries[i].landing, pad, records, j)
  {
    hide LsdaOf, CxxScan.Scan, Compiled, PrintTable, FirstAt, Start, ScanDecides, CleanDecides, CatchesAs;
    CxxScansPrinted(source, view, layout, entries, records, after, runtime(exception, class_), CxxScan.Stage.Search);
    CxxScansPrinted(source, view, layout, entries, records, after, runtime(exception, class_), CxxScan.Stage.Handler);
    var base := LandingBase(layout, FrameBases(source, view));
    forall i: nat, pad, j: nat | Covering(source, view, layout, entries, i, pad) && Names(entries[i], records, j)
      ensures CatchesAs(source, runtime, view, exception, class_, entries[i].landing, pad, records, j)
    {
      CatchesAsMeans(source, runtime, view, exception, class_, entries[i], base, records, j);
    }
  }
}
