/**
 * From what a compiler means by a table to what the personalities decide.
 *
 * A table of call sites and linked action records is printed, parsed, searched for a program counter and scanned.
 * The personalities then decide as the covering entry was meant: by its landing pad and the signs of the
 * discriminators along its links.
 */
module PrintedTables {
  import opened Words
  import opened Leb128
  import opened Encoding
  import opened Table
  import opened Iterators
  import opened RoundTrip
  import opened ActionRecords
  import RustScan
  import CxxScan

  predicate CoversAt(e: Entry, offset: int) {
    e.start <= offset < e.start + e.length
  }

  /** Entries in start order whose ends are offsets; zero lengths and overlaps are allowed. */
  predicate Ascending(entries: seq<Entry>) {
    && (forall i | 0 <= i < |entries| :: entries[i].start + entries[i].length < WORD)
    && forall i, j | 0 <= i < j < |entries| :: entries[i].start <= entries[j].start
  }

  /** Entry `i` is the first that covers the offset. */
  predicate FirstAt(entries: seq<Entry>, i: nat, offset: int) {
    i < |entries| && CoversAt(entries[i], offset) && forall k | 0 <= k < i :: !CoversAt(entries[k], offset)
  }

  predicate Uncovered(entries: seq<Entry>, offset: int) {
    forall k | 0 <= k < |entries| :: !CoversAt(entries[k], offset)
  }

  /** The action offset of the entry is the one of record `j`. */
  predicate Names(e: Entry, records: seq<ActionRecord>, j: nat) {
    j < |records| && e.action == Start(records, j) + 1
  }

  lemma ReportedDecodes(lsda: Lsda, entries: seq<Entry>, actions: Bytes)
    requires Ascending(entries) && Recovered(lsda, entries, actions)
    ensures Decodes(Sites(lsda)) && Sorted(Sites(lsda))
    ensures forall i | 0 <= i < |entries| ::
              forall offset: int :: Covers(Sites(lsda)[i].value, offset) <==> CoversAt(entries[i], offset)
  {
    hide Sites;
    var items := Sites(lsda);
    forall i | 0 <= i < |entries|
      ensures items[i].Ok? && items[i].value.start == entries[i].start && items[i].value.length == entries[i].length
    {
      assert Reports(items[i], entries[i], lsda.landingBase);
    }
  }

  /** The lookup finds the first covering entry, and nothing at an offset that no entry covers. */
  lemma LooksUp(lsda: Lsda, entries: seq<Entry>, actions: Bytes, offset: Word)
    requires Ascending(entries) && Recovered(lsda, entries, actions) && lsda.bases.function_ + offset < WORD
    ensures Uncovered(entries, offset) ==> SiteAt(lsda, lsda.bases.function_ + offset) == Ok(None)
    ensures forall i: nat | FirstAt(entries, i, offset) ::
              && Sites(lsda)[i].Ok? && Reports(Sites(lsda)[i], entries[i], lsda.landingBase)
              && SiteAt(lsda, lsda.bases.function_ + offset) == Ok(Some(Sites(lsda)[i].value))
  {
    hide Sites, SiteAt, Reports;
    ReportedDecodes(lsda, entries, actions);
    SortedLookup(lsda, lsda.bases.function_ + offset);
    var _ := FirstCover(Sites(lsda), offset);
  }

  /** The whole printed table. */
  function PrintTable(layout: Layout, entries: seq<Entry>, records: seq<ActionRecord>, after: Bytes): Bytes
    requires WellFormed(records) && |PrintSites(entries, layout.callEncoding, layout.endian)| < WORD
  {
    PrintLsda(layout, entries, PrintRecords(records, |records|) + after)
  }

  /** A table whose entries stand in start order, with `after` behind its records. */
  predicate Compiled(layout: Layout, bases: Bases, entries: seq<Entry>, records: seq<ActionRecord>, after: Bytes) {
    && WellFormed(records) && Ascending(entries)
    && PrintableTable(layout, bases, entries, PrintRecords(records, |records|) + after)
  }

  /** A parsed table that was printed from these entries and records. */
  predicate Represents(
    lsda: Lsda, bases: Bases, landingBase: Word, entries: seq<Entry>, records: seq<ActionRecord>, after: Bytes)
  {
    && lsda.bases == bases && lsda.landingBase == landingBase
    && Ascending(entries) && Holds(lsda, records, after)
    && Recovered(lsda, entries, PrintRecords(records, |records|) + after)
    && forall i | 0 <= i < |entries| :: landingBase + entries[i].landing < WORD
  }

  /** Parsing a printed table succeeds, with the entries and the linked records that were printed. */
  lemma CompiledParses(layout: Layout, bases: Bases, entries: seq<Entry>, records: seq<ActionRecord>, after: Bytes)
    requires Compiled(layout, bases, entries, records, after)
    ensures var r := NewLsda(PrintTable(layout, entries, records, after), bases, layout.endian);
            r.Ok? && Represents(r.value, bases, LandingBase(layout, bases), entries, records, after)
  {
    hide NewLsda, PrintLsda, PrintRecords, PrintSites, Sites, Plain, Fits, TypesFit, TypesAt, WellFormed, Ascending;
    TableRoundTrip(layout, bases, entries, PrintRecords(records, |records|) + after);
    assert forall i | 0 <= i < |entries| :: Printable(entries[i], layout.callEncoding, LandingBase(layout, bases));
  }

  // ---- Rust ----

  /** The classification that an entry was printed for, with the discriminator of its first record. */
  function RustMeans(e: Entry, index: Option<SWord>, landingBase: Word): RustScan.Action
    requires landingBase + e.landing < WORD
  {
    var pad := landingBase + e.landing;
    if e.landing == 0 then RustScan.NoPad
    else if index == None || index.value == 0 then RustScan.Cleanup(pad)
    else if index.value > 0 then RustScan.Catch(pad)
    else RustScan.Filter(pad)
  }

  /** The Rust classification at every offset of a printed table. */
  predicate RustDecided(
    lsda: Lsda, landingBase: Word, entries: seq<Entry>, records: seq<ActionRecord>, offset: Word, pc: Word)
  {
    && (forall i | 0 <= i < |entries| :: landingBase + entries[i].landing < WORD)
    && (Uncovered(entries, offset) ==> RustScan.Scan(lsda, pc) == Ok(RustScan.Terminate))
    && (forall i | 0 <= i < |entries| && FirstAt(entries, i, offset) && entries[i].action == 0 ::
          RustScan.Scan(lsda, pc) == Ok(RustMeans(entries[i], None, landingBase)))
    && (forall i, j | 0 <= i < |entries| && 0 <= j < |records| && FirstAt(entries, i, offset)
       && Names(entries[i], records, j) ::
          RustScan.Scan(lsda, pc) == Ok(RustMeans(entries[i], Some(records[j].index), landingBase)))
  }

  lemma RustFound(
    lsda: Lsda, bases: Bases, landingBase: Word, entries: seq<Entry>, records: seq<ActionRecord>, after: Bytes,
    offset: Word)
    requires Represents(lsda, bases, landingBase, entries, records, after) && bases.function_ + offset < WORD
    ensures RustDecided(lsda, landingBase, entries, records, offset, bases.function_ + offset)
  {
    hide Sites, SiteAt, Chain, PrintRecords, Start, Ascending, Recovered, FirstAt;
    var actions := PrintRecords(records, |records|) + after;
    hide Holds;
    LooksUp(lsda, entries, actions, offset);
    forall j | 0 <= j < |records|
      ensures LinksInside(records) && Start(records, j) + 1 < WORD
              && var items := Chain(lsda, Action(records, j));
                 items.Ok? && items.value != [] && items.value[0] == NewKind(records[j].index)
    {
      ChainAlongLinks(lsda, records, after, j);
    }
  }

  /** The Rust classification of a printed table, through header, call sites, lookup and chain. */
  lemma RustDecides(
    layout: Layout, bases: Bases, entries: seq<Entry>, records: seq<ActionRecord>, after: Bytes, offset: Word)
    requires Compiled(layout, bases, entries, records, after) && bases.function_ + offset < WORD
    ensures var r := NewLsda(PrintTable(layout, entries, records, after), bases, layout.endian);
            && r.Ok?
            && RustDecided(r.value, LandingBase(layout, bases), entries, records, offset, bases.function_ + offset)
  {
    hide Represents, RustDecided, NewLsda, PrintTable;
    CompiledParses(layout, bases, entries, records, after);
    var lsda := NewLsda(PrintTable(layout, entries, records, after), bases, layout.endian).value;
    RustFound(lsda, bases, LandingBase(layout, bases), entries, records, after, offset);
  }

  // ---- C++ ----

  /** The cleanup that an entry was printed for, with the discriminators of its chain. */
  function CxxMeans(e: Entry, chain: Option<seq<SWord>>, landingBase: Word): CxxScan.Action
    requires landingBase + e.landing < WORD
  {
    if e.landing != 0 && (chain == None || 0 in chain.value) then CxxScan.Cleanup(landingBase + e.landing)
    else CxxScan.NoPad
  }

  /** The `k`-th record from record `j` is the first that the matcher accepts, and `index` is its discriminator. */
  predicate Accepts(
    m: CxxScan.Matcher, stage: CxxScan.Stage, lsda: Lsda, records: seq<ActionRecord>, j: nat, k: nat, index: SWord)
    requires j < |records| && LinksInside(records)
  {
    && CxxScan.FirstMatch(m, stage, lsda, Along(records, j, |lsda.bytes| + 1), k, index)
    && Step(records, j, k).Some? && records[Step(records, j, k).value].index == index
  }

  /**
   * The scan fails at the `k`-th record from record `j`, behind rejected ones: its own clause breaks, or the links
   * run in a circle and the records are never exhausted.
   */
  ghost predicate FailsAt(
    m: CxxScan.Matcher, stage: CxxScan.Stage, lsda: Lsda, records: seq<ActionRecord>, j: nat, k: nat,
    failure: CxxScan.Failure)
    requires j < |records| && LinksInside(records)
  {
    && CxxScan.FirstFailure(m, stage, lsda, Along(records, j, |lsda.bytes| + 1), k, failure)
    && (|| (Circular(records, j) && failure == CxxScan.Metadata(CxxScan.Parse(Loop)))
        || (Step(records, j, k).Some?
            && CxxScan.Breaks(m, stage, lsda, NewKind(records[Step(records, j, k).value].index), failure)))
  }

  /** The cleanup scan of an entry that names record `j`. */
  ghost predicate CleanDecides(lsda: Lsda, landingBase: Word, e: Entry, records: seq<ActionRecord>, j: nat, pc: Word)
    requires j < |records| && LinksInside(records) && landingBase + e.landing < WORD
  {
    && (forall n: nat | Follow(records, j, n).Some? ::
          CxxScan.Clean(lsda, pc) == Ok(CxxMeans(e, Follow(records, j, n), landingBase)))
    && (Circular(records, j) && e.landing != 0 ==> CxxScan.Clean(lsda, pc) == Err(CxxScan.Parse(Loop)))
  }

  /** The asking scan of an entry that names record `j`: a handler, nothing but cleanup, or the first failure. */
  ghost predicate ScanDecides(
    m: CxxScan.Matcher, stage: CxxScan.Stage, lsda: Lsda, landingBase: Word, e: Entry, records: seq<ActionRecord>,
    j: nat, pc: Word)
    requires j < |records| && LinksInside(records) && landingBase + e.landing < WORD
  {
    var r := CxxScan.Scan(m, stage, lsda, pc);
    if e.landing == 0 then r == Ok(CxxScan.NoPad)
    else
      && (forall pad: NonZero, selector: SWord ::
            r == Ok(CxxScan.Action.Handler(pad, selector))
            <==> pad == landingBase + e.landing && exists k: nat :: Accepts(m, stage, lsda, records, j, k, selector))
      && (forall n: nat | Follow(records, j, n).Some? ::
            r == Ok(CxxMeans(e, Follow(records, j, n), landingBase))
            <==> CxxScan.AllRejected(m, stage, lsda, Kinds(Follow(records, j, n).value)))
      && (Circular(records, j) ==> r.Err? || r.value.Handler?)
      && (forall failure ::
            r == Err(failure) <==> exists k: nat :: FailsAt(m, stage, lsda, records, j, k, failure))
      && (r.Ok? ==> !r.value.Terminate?)
  }

  /** Both C++ scans of an entry that names record `j`. */
  ghost predicate Decides(
    m: CxxScan.Matcher, stage: CxxScan.Stage, lsda: Lsda, landingBase: Word, e: Entry, records: seq<ActionRecord>,
    j: nat, pc: Word)
    requires j < |records| && LinksInside(records) && landingBase + e.landing < WORD
  {
    CleanDecides(lsda, landingBase, e, records, j, pc) && ScanDecides(m, stage, lsda, landingBase, e, records, j, pc)
  }

  /** Both C++ scans of an entry without actions. */
  predicate DecidesAlone(
    m: CxxScan.Matcher, stage: CxxScan.Stage, lsda: Lsda, landingBase: Word, e: Entry, pc: Word)
    requires landingBase + e.landing < WORD
  {
    && CxxScan.Clean(lsda, pc) == Ok(CxxMeans(e, None, landingBase))
    && CxxScan.Scan(m, stage, lsda, pc) == Ok(CxxMeans(e, None, landingBase))
  }

  /** The C++ scans at every offset of a printed table. */
  ghost predicate CxxDecided(
    m: CxxScan.Matcher, stage: CxxScan.Stage, lsda: Lsda, landingBase: Word, entries: seq<Entry>,
    records: seq<ActionRecord>, offset: Word, pc: Word)
  {
    && LinksInside(records)
    && (forall i | 0 <= i < |entries| :: landingBase + entries[i].landing < WORD)
    && (Uncovered(entries, offset) ==>
          CxxScan.Clean(lsda, pc) == Ok(CxxScan.Terminate) && CxxScan.Scan(m, stage, lsda, pc) == Ok(CxxScan.Terminate))
    && (forall i | 0 <= i < |entries| && FirstAt(entries, i, offset) && entries[i].action == 0 ::
          DecidesAlone(m, stage, lsda, landingBase, entries[i], pc))
    && (forall i, j | 0 <= i < |entries| && 0 <= j < |records| && FirstAt(entries, i, offset)
       && Names(entries[i], records, j) ::
          Decides(m, stage, lsda, landingBase, entries[i], records, j, pc))
  }

  /** The chain of discriminators holds a cleanup record exactly where it holds a zero, and no error. */
  lemma {:induction false} KindsOf(chain: seq<SWord>)
    ensures CxxScan.FirstError(Kinds(chain)) == |chain|
    ensures Ok(Kind.Cleanup) in Kinds(chain) <==> 0 in chain
    decreases |chain|
  {
    if chain != [] {
      KindsOf(chain[1..]);
      assert Kinds(chain)[1..] == Kinds(chain[1..]);
    }
  }

  /** A selected clause stands for its discriminator. */
  lemma SelectsDiscriminator(m: CxxScan.Matcher, stage: CxxScan.Stage, lsda: Lsda, index: SWord, selector: SWord)
    requires CxxScan.Selects(m, stage, lsda, NewKind(index), selector)
    ensures selector == index
  {
    hide GetType;
  }

  /** A first match along the links is at a record, and its selector is that record's discriminator. */
  lemma MatchIsRecord(
    m: CxxScan.Matcher, stage: CxxScan.Stage, lsda: Lsda, records: seq<ActionRecord>, j: nat, k: nat, selector: SWord)
    requires j < |records| && LinksInside(records)
    requires CxxScan.FirstMatch(m, stage, lsda, Along(records, j, |lsda.bytes| + 1), k, selector)
    ensures Accepts(m, stage, lsda, records, j, k, selector)
  {
    hide Along, NewKind, GetType;
    var items := Along(records, j, |lsda.bytes| + 1);
    assert items[k] != Err(Loop);
    AlongAt(records, j, |lsda.bytes| + 1, k);
    SelectsDiscriminator(m, stage, lsda, records[Step(records, j, k).value].index, selector);
  }

  lemma LoopIsFirst(items: seq<KindItem>)
    requires Err(Loop) in items && forall i | 0 <= i < |items| - 1 :: items[i].Ok?
    ensures CxxScan.FirstError(items) < |items| && items[CxxScan.FirstError(items)] == Err(Loop)
  {
  }

  /** What both scans open at an entry that names record `j`. */
  lemma OpensAt(
    lsda: Lsda, landingBase: Word, e: Entry, item: SiteItem, records: seq<ActionRecord>, after: Bytes, j: nat, pc: Word)
    requires Holds(lsda, records, after) && Names(e, records, j) && landingBase + e.landing < WORD
    requires item.Ok? && Reports(item, e, landingBase) && SiteAt(lsda, pc) == Ok(Some(item.value))
    ensures LinksInside(records)
    ensures CxxScan.OpenSite(lsda, pc)
            == Ok(if e.landing == 0 then CxxScan.Done(CxxScan.NoPad)
                  else CxxScan.Items(Along(records, j, |lsda.bytes| + 1), landingBase + e.landing))
  {
    hide SiteAt, Chain, PrintRecords, Start, Along;
    ChainAlongLinks(lsda, records, after, j);
  }

  /** What both scans open at an entry with these items behind its landing pad. */
  predicate Opens(lsda: Lsda, pc: Word, e: Entry, items: seq<KindItem>, landingBase: Word)
    requires landingBase + e.landing < WORD
  {
    CxxScan.OpenSite(lsda, pc)
    == Ok(if e.landing == 0 then CxxScan.Done(CxxScan.NoPad) else CxxScan.Items(items, landingBase + e.landing))
  }

  lemma CleanFound(lsda: Lsda, landingBase: Word, e: Entry, records: seq<ActionRecord>, after: Bytes, j: nat, pc: Word)
    requires Holds(lsda, records, after) && j < |records| && landingBase + e.landing < WORD
    requires LinksInside(records) && Opens(lsda, pc, e, Along(records, j, |lsda.bytes| + 1), landingBase)
    ensures CleanDecides(lsda, landingBase, e, records, j, pc)
  {
    hide CxxScan.OpenSite, Chain, PrintRecords, Start, Along, Kinds, CxxScan.FirstError;
    ChainAlongLinks(lsda, records, after, j);
    hide Holds;
    forall n: nat | Follow(records, j, n).Some?
      ensures CxxScan.Clean(lsda, pc) == Ok(CxxMeans(e, Follow(records, j, n), landingBase))
    {
      KindsOf(Follow(records, j, n).value);
    }
    if Circular(records, j) { LoopIsFirst(Along(records, j, |lsda.bytes| + 1)); }
  }

  /** With a landing pad, the asking scan is the scan of the opened items. */
  lemma ScansItems(
    m: CxxScan.Matcher, stage: CxxScan.Stage, lsda: Lsda, pc: Word, e: Entry, items: seq<KindItem>, landingBase: Word)
    requires landingBase + e.landing < WORD && Opens(lsda, pc, e, items, landingBase)
    ensures CxxScan.Scan(m, stage, lsda, pc)
            == if e.landing == 0 then Ok(CxxScan.NoPad)
               else CxxScan.ScanItems(m, stage, lsda, items, landingBase + e.landing)
  {
    hide CxxScan.OpenSite, CxxScan.ScanItems;
  }

  lemma HandlerFound(
    m: CxxScan.Matcher, stage: CxxScan.Stage, lsda: Lsda, records: seq<ActionRecord>, j: nat, own: NonZero,
    pad: NonZero, selector: SWord)
    requires LinksInside(records) && j < |records|
    ensures CxxScan.ScanItems(m, stage, lsda, Along(records, j, |lsda.bytes| + 1), own)
            == Ok(CxxScan.Action.Handler(pad, selector))
            <==> pad == own && exists k: nat :: Accepts(m, stage, lsda, records, j, k, selector)
  {
    hide CxxScan.ScanItems, CxxScan.FirstMatch, Along, Step;
    var items := Along(records, j, |lsda.bytes| + 1);
    CxxScan.FirstMatchIff(m, stage, lsda, items, own, selector);
    CxxScan.PadComesFromSite(m, stage, lsda, items, own);
    if k: nat :| CxxScan.FirstMatch(m, stage, lsda, items, k, selector) {
      MatchIsRecord(m, stage, lsda, records, j, k, selector);
    }
    if k: nat :| Accepts(m, stage, lsda, records, j, k, selector) {
      assert CxxScan.FirstMatch(m, stage, lsda, items, k, selector);
    }
  }

  /** A first failure along the links is a broken record, or the end of the fuel on a circle. */
  lemma FailureIsRecord(
    m: CxxScan.Matcher, stage: CxxScan.Stage, lsda: Lsda, records: seq<ActionRecord>, j: nat, k: nat,
    failure: CxxScan.Failure)
    requires LinksInside(records) && j < |records|
    requires Err(Loop) in Along(records, j, |lsda.bytes| + 1) <==> Circular(records, j)
    requires CxxScan.FirstFailure(m, stage, lsda, Along(records, j, |lsda.bytes| + 1), k, failure)
    ensures FailsAt(m, stage, lsda, records, j, k, failure)
  {
    hide Along, NewKind, CxxScan.CatchClause, CxxScan.Rejects, Circular, Step;
    var items := Along(records, j, |lsda.bytes| + 1);
    if items[k] != Err(Loop) { AlongAt(records, j, |lsda.bytes| + 1, k); }
  }

  lemma FailureFound(
    m: CxxScan.Matcher, stage: CxxScan.Stage, lsda: Lsda, records: seq<ActionRecord>, j: nat, own: NonZero,
    failure: CxxScan.Failure)
    requires LinksInside(records) && j < |records|
    requires Err(Loop) in Along(records, j, |lsda.bytes| + 1) <==> Circular(records, j)
    ensures CxxScan.ScanItems(m, stage, lsda, Along(records, j, |lsda.bytes| + 1), own) == Err(failure)
            <==> exists k: nat :: FailsAt(m, stage, lsda, records, j, k, failure)
  {
    hide CxxScan.ScanItems, CxxScan.FirstFailure, Along, Step, Circular;
    var items := Along(records, j, |lsda.bytes| + 1);
    CxxScan.FailureIff(m, stage, lsda, items, own, failure);
    if k: nat :| CxxScan.FirstFailure(m, stage, lsda, items, k, failure) {
      FailureIsRecord(m, stage, lsda, records, j, k, failure);
    }
    if k: nat :| FailsAt(m, stage, lsda, records, j, k, failure) {
      assert CxxScan.FirstFailure(m, stage, lsda, items, k, failure);
    }
  }

  lemma LoopIsNotRejected(m: CxxScan.Matcher, stage: CxxScan.Stage, lsda: Lsda, items: seq<KindItem>)
    requires Err(Loop) in items
    ensures !CxxScan.AllRejected(m, stage, lsda, items)
  {
    var i :| 0 <= i < |items| && items[i] == Err(Loop);
    assert !CxxScan.Rejects(m, stage, lsda, items[i]);
  }

  lemma ScanFound(
    m: CxxScan.Matcher, stage: CxxScan.Stage, lsda: Lsda, landingBase: Word, e: Entry, records: seq<ActionRecord>,
    after: Bytes, j: nat, pc: Word)
    requires Holds(lsda, records, after) && j < |records| && landingBase + e.landing < WORD
    requires LinksInside(records) && Opens(lsda, pc, e, Along(records, j, |lsda.bytes| + 1), landingBase)
    ensures ScanDecides(m, stage, lsda, landingBase, e, records, j, pc)
  {
    hide Along, Opens, Accepts, FailsAt, Circular, Kinds, Start, Chain, Holds, CxxScan.Scan, CxxScan.ScanItems,
         CxxScan.AllRejected;
    var items := Along(records, j, |lsda.bytes| + 1);
    ScansItems(m, stage, lsda, pc, e, items, landingBase);
    if e.landing != 0 {
      var own: NonZero := landingBase + e.landing;
      ChainAlongLinks(lsda, records, after, j);
      CxxScan.NothingIff(m, stage, lsda, items, own);
      forall pad: NonZero, selector: SWord
        ensures CxxScan.ScanItems(m, stage, lsda, items, own) == Ok(CxxScan.Action.Handler(pad, selector))
                <==> pad == own && exists k: nat :: Accepts(m, stage, lsda, records, j, k, selector)
      {
        HandlerFound(m, stage, lsda, records, j, own, pad, selector);
      }
      forall failure
        ensures CxxScan.ScanItems(m, stage, lsda, items, own) == Err(failure)
                <==> exists k: nat :: FailsAt(m, stage, lsda, records, j, k, failure)
      {
        FailureFound(m, stage, lsda, records, j, own, failure);
      }
      forall n: nat | Follow(records, j, n).Some?
        ensures CxxScan.ScanItems(m, stage, lsda, items, own) == Ok(CxxMeans(e, Follow(records, j, n), landingBase))
                <==> CxxScan.AllRejected(m, stage, lsda, Kinds(Follow(records, j, n).value))
      {
        KindsOf(Follow(records, j, n).value);
      }
      if Circular(records, j) { LoopIsNotRejected(m, stage, lsda, items); }
      NeverTerminates(m, stage, lsda, items, own);
    }
  }

  lemma NeverTerminates(
    m: CxxScan.Matcher, stage: CxxScan.Stage, lsda: Lsda, items: seq<KindItem>, own: NonZero)
    ensures var r := CxxScan.ScanItems(m, stage, lsda, items, own); r.Ok? ==> !r.value.Terminate?
  {
    hide CxxScan.Outcome, CxxScan.Decided;
  }

  lemma EntryFound(
    m: CxxScan.Matcher, stage: CxxScan.Stage, lsda: Lsda, landingBase: Word, e: Entry, item: SiteItem,
    records: seq<ActionRecord>, after: Bytes, j: nat, pc: Word)
    requires Holds(lsda, records, after) && Names(e, records, j) && landingBase + e.landing < WORD
    requires item.Ok? && Reports(item, e, landingBase) && SiteAt(lsda, pc) == Ok(Some(item.value))
    ensures LinksInside(records) && Decides(m, stage, lsda, landingBase, e, records, j, pc)
  {
    hide SiteAt, Along, CxxScan.OpenSite, Holds, CleanDecides, ScanDecides;
    OpensAt(lsda, landingBase, e, item, records, after, j, pc);
    CleanFound(lsda, landingBase, e, records, after, j, pc);
    ScanFound(m, stage, lsda, landingBase, e, records, after, j, pc);
  }

  lemma AloneFound(
    m: CxxScan.Matcher, stage: CxxScan.Stage, lsda: Lsda, landingBase: Word, e: Entry, item: SiteItem, pc: Word)
    requires e.action == 0 && landingBase + e.landing < WORD
    requires item.Ok? && Reports(item, e, landingBase) && SiteAt(lsda, pc) == Ok(Some(item.value))
    ensures DecidesAlone(m, stage, lsda, landingBase, e, pc)
  {
    hide SiteAt, Chain;
  }

  lemma SiteCount(lsda: Lsda, entries: seq<Entry>, actions: Bytes)
    requires Recovered(lsda, entries, actions)
    ensures |Sites(lsda)| == |entries|
  {
  }

  lemma CxxFound(
    m: CxxScan.Matcher, stage: CxxScan.Stage, lsda: Lsda, bases: Bases, landingBase: Word, entries: seq<Entry>,
    records: seq<ActionRecord>, after: Bytes, offset: Word)
    requires Represents(lsda, bases, landingBase, entries, records, after) && bases.function_ + offset < WORD
    ensures CxxDecided(m, stage, lsda, landingBase, entries, records, offset, bases.function_ + offset)
  {
    hide Sites, SiteAt, Chain, PrintRecords, Start, Ascending, Recovered, FirstAt, Reports, Names, Decides,
         DecidesAlone;
    var actions, pc := PrintRecords(records, |records|) + after, bases.function_ + offset;
    assert LinksInside(records);
    SiteCount(lsda, entries, actions);
    hide Holds;
    LooksUp(lsda, entries, actions, offset);
    forall i | 0 <= i < |entries| && FirstAt(entries, i, offset) && entries[i].action == 0
      ensures DecidesAlone(m, stage, lsda, landingBase, entries[i], pc)
    {
      AloneFound(m, stage, lsda, landingBase, entries[i], Sites(lsda)[i], pc);
    }
    forall i, j | 0 <= i < |entries| && 0 <= j < |records| && FirstAt(entries, i, offset)
        && Names(entries[i], records, j)
      ensures Decides(m, stage, lsda, landingBase, entries[i], records, j, pc)
    {
      EntryFound(m, stage, lsda, landingBase, entries[i], Sites(lsda)[i], records, after, j, pc);
    }
  }

  /**
   * The C++ scans of a printed table. The cleanup scan finds what the entry was printed for, and the loop error
   * where its links run in a circle. A handler is selected if and only if the links lead to a first accepted
   * clause, and what reaches the landing pad is the very discriminator of that record. Nothing but cleanup is found
   * if and only if the links end and every clause along them is rejected, and a failure is that of the first record
   * that breaks, or the loop error.
   */
  lemma CxxDecides(
    layout: Layout, bases: Bases, entries: seq<Entry>, records: seq<ActionRecord>, after: Bytes, offset: Word,
    m: CxxScan.Matcher, stage: CxxScan.Stage)
    requires Compiled(layout, bases, entries, records, after) && bases.function_ + offset < WORD
    ensures var r := NewLsda(PrintTable(layout, entries, records, after), bases, layout.endian);
            && r.Ok?
            && CxxDecided(m, stage, r.value, LandingBase(layout, bases), entries, records, offset,
               bases.function_ + offset)
  {
    hide Represents, CxxDecided, NewLsda, PrintTable;
    CompiledParses(layout, bases, entries, records, after);
    var lsda := NewLsda(PrintTable(layout, entries, records, after), bases, layout.endian).value;
    CxxFound(m, stage, lsda, bases, LandingBase(layout, bases), entries, records, after, offset);
  }
}
