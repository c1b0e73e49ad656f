/**
 * A printer for language specific data, and the proof that the parser inverts it.
 *
 * The printer lays a table out as assemblers do: optional landing-pad base, optional type table position,
 * call-site encoding, call sites, and then whatever bytes stand behind the call sites.
 */
module RoundTrip {
  import opened Words
  import opened Leb128
  import opened Encoding
  import opened Table

  /** One call site with its fields as stored: `landing` is relative, and zero means none, as for `action`. */
  datatype Entry = Entry(start: Word, length: Word, landing: Word, action: Word)

  // ---- Plain offsets ----

  function LePrint(value: nat, width: nat): (r: Bytes)
    ensures |r| == width
  {
    if width == 0 then [] else [value % 256] + LePrint(value / 256, width - 1)
  }

  function PrintFixed(value: nat, width: nat, endian: Endian): (r: Bytes)
    ensures |r| == width
  {
    match endian case Little => LePrint(value, width) case Big => Reverse(LePrint(value, width))
  }

  predicate Plain(encoding: DwEhPe) {
    ValidEncoding(encoding) && !Absent(encoding) && Application(encoding) == ABS && !Indirect(encoding)
  }

  /** Whether the format can spell the offset. */
  predicate Fits(value: Word, encoding: DwEhPe) {
    var format := Format(encoding);
    if format in {ABS, U8, ULEB} then true
    else if format in {S8, SLEB} then value < Pow2(63)
    else if format == U4 then value < Pow2(32)
    else if format == S4 then value < Pow2(31)
    else if format == U2 then value < Pow2(16)
    else value < Pow2(15)
  }

  function PrintOffset(value: Word, encoding: DwEhPe, endian: Endian): (r: Bytes)
    ensures r != []
  {
    var format := Format(encoding);
    if format == ULEB then EncodeUleb(value)
    else if format == SLEB then EncodeSleb(value)
    else if format in {U2, S2} then PrintFixed(value, 2, endian)
    else if format in {U4, S4} then PrintFixed(value, 4, endian)
    else PrintFixed(value, 8, endian)
  }

  lemma {:induction false} LeInverts(value: nat, width: nat)
    requires value < Pow2(8 * width)
    ensures LeValue(LePrint(value, width)) == value
    decreases width
  {
    if width > 0 {
      assert Pow2(8 * width) == 256 * Pow2(8 * (width - 1)) by {
        Powers();
        Pow2Add(8, 8 * (width - 1));
      }
      LeInverts(value / 256, width - 1);
      assert LePrint(value, width)[1..] == LePrint(value / 256, width - 1);
    }
  }

  lemma FixedInverts(value: nat, width: nat, endian: Endian, tail: Bytes)
    requires width in {2, 4, 8} && value < Pow2(8 * width)
    ensures var input := PrintFixed(value, width, endian) + tail;
            && input[width..] == tail
            && value < WORD && ReadUnsigned(input, width, endian) == Ok((tail, value))
            && (value < Pow2(8 * width - 1) ==> value < HALF && ReadSigned(input, width, endian) == Ok((tail, value)))
  {
    hide LePrint, LeValue, Reverse;
    WidthFits(width);
    var printed := PrintFixed(value, width, endian);
    assert (printed + tail)[..width] == printed;
    assert (printed + tail)[width..] == tail;
    LeInverts(value, width);
    assert Reverse(Reverse(LePrint(value, width))) == LePrint(value, width);
  }

  lemma OffsetInverts(value: Word, encoding: DwEhPe, endian: Endian, tail: Bytes)
    requires Plain(encoding) && Fits(value, encoding)
    ensures ReadOffset(PrintOffset(value, encoding, endian) + tail, encoding, endian) == Ok((tail, value))
  {
    hide Uleb, Sleb, ReadUnsigned, ReadSigned, EncodeUleb, EncodeSleb, PrintFixed, ValidEncoding, Pow2;
    var format := Format(encoding);
    Powers();
    assert format in {ABS, ULEB, U2, U4, U8, SLEB, S2, S4, S8} by { PlainFormat(encoding); }
    if format == ULEB { UlebInverts(value, tail); }
    else if format == SLEB { SlebInverts(value, tail); }
    else if format in {U2, S2} { PowMonotone(15, 16); FixedInverts(value, 2, endian, tail); }
    else if format in {U4, S4} { PowMonotone(31, 32); FixedInverts(value, 4, endian, tail); }
    else { FixedInverts(value, 8, endian, tail); }
  }

  /** The two LEB128 formats are read back on all values, negative ones included. */
  lemma LebInverts(value: Word, signed: SWord, tail: Bytes, endian: Endian)
    ensures ReadScalar(EncodeUleb(value) + tail, 1, endian) == Ok((tail, Unsigned(value)))
    ensures ReadScalar(EncodeSleb(signed) + tail, 9, endian) == Ok((tail, Signed(signed)))
  {
    hide Uleb, Sleb, EncodeUleb, EncodeSleb;
    UlebInverts(value, tail);
    SlebInverts(signed, tail);
  }

  /** An offset is read iff its encoding is a plain format without application or indirection; negatives overflow. */
  lemma OffsetMeans(input: Bytes, encoding: DwEhPe, endian: Endian)
    ensures var plain := encoding < 16 && encoding in {0, 1, 2, 3, 4, 9, 10, 11, 12};
            var r := ReadOffset(input, encoding, endian);
            if !plain then r == Err(LsdaError.Encoding)
            else
              match ReadScalar(input, encoding, endian)
              case Err(e) => r == Err(e)
              case Ok((rest, scalar)) => r == if scalar.Value() < 0 then Err(Overflow) else Ok((rest, scalar.Value()))
  {
    hide ReadScalar;
  }

  lemma PlainFormat(encoding: DwEhPe)
    requires Plain(encoding)
    ensures Format(encoding) in {ABS, ULEB, U2, U4, U8, SLEB, S2, S4, S8}
  {
  }

  // ---- Call sites ----

  predicate Printable(e: Entry, encoding: DwEhPe, landingBase: Word) {
    Fits(e.start, encoding) && Fits(e.length, encoding) && Fits(e.landing, encoding) && landingBase + e.landing < WORD
  }

  function PrintSite(e: Entry, encoding: DwEhPe, endian: Endian): (r: Bytes)
    ensures r != []
  {
    PrintOffset(e.start, encoding, endian) + PrintOffset(e.length, encoding, endian)
    + PrintOffset(e.landing, encoding, endian) + EncodeUleb(e.action)
  }

  /** Whether `item` reports the entry: an absolute landing pad, and no pad or action for zero. */
  predicate Reports(item: SiteItem, e: Entry, landingBase: Word) {
    match item
    case Err(_) => false
    case Ok(site) =>
      && site.start == e.start && site.length == e.length
      && (if e.landing == 0 then site.landing == None
          else site.landing.Some? && site.landing.value == landingBase + e.landing)
      && (if e.action == 0 then site.action == None else site.action.Some? && site.action.value == e.action)
  }

  lemma SiteInverts(e: Entry, lsda: Lsda, tail: Bytes)
    requires Plain(lsda.callEncoding) && Printable(e, lsda.callEncoding, lsda.landingBase)
    ensures var r := CallSite(PrintSite(e, lsda.callEncoding, lsda.endian) + tail, lsda);
            r.Ok? && r.value.0 == tail && Reports(Ok(r.value.1), e, lsda.landingBase)
  {
    hide PrintOffset, ReadOffset, Uleb, EncodeUleb, Plain, Fits;
    var encoding, endian := lsda.callEncoding, lsda.endian;
    var tail3 := EncodeUleb(e.action) + tail;
    var tail2 := PrintOffset(e.landing, encoding, endian) + tail3;
    var tail1 := PrintOffset(e.length, encoding, endian) + tail2;
    assert PrintSite(e, encoding, endian) + tail == PrintOffset(e.start, encoding, endian) + tail1;
    OffsetInverts(e.start, encoding, endian, tail1);
    OffsetInverts(e.length, encoding, endian, tail2);
    OffsetInverts(e.landing, encoding, endian, tail3);
    UlebInverts(e.action, tail);
  }

  function PrintSites(entries: seq<Entry>, encoding: DwEhPe, endian: Endian): Bytes {
    if entries == [] then [] else PrintSite(entries[0], encoding, endian) + PrintSites(entries[1..], encoding, endian)
  }

  /** A printed call-site table yields its entries one by one, and then nothing more. */
  lemma {:induction false} SitesInvert(entries: seq<Entry>, lsda: Lsda)
    requires Plain(lsda.callEncoding)
    requires forall i | 0 <= i < |entries| :: Printable(entries[i], lsda.callEncoding, lsda.landingBase)
    ensures var items := SiteItems(lsda, PrintSites(entries, lsda.callEncoding, lsda.endian));
            |items| == |entries| && forall i | 0 <= i < |entries| :: Reports(items[i], entries[i], lsda.landingBase)
    decreases |entries|
  {
    hide PrintSite, CallSite, Printable, Plain, Reports;
    if entries != [] {
      var rest := PrintSites(entries[1..], lsda.callEncoding, lsda.endian);
      var input := PrintSites(entries, lsda.callEncoding, lsda.endian);
      SiteInverts(entries[0], lsda, rest);
      SitesInvert(entries[1..], lsda);
      assert SiteItems(lsda, input) == [Ok(CallSite(input, lsda).value.1)] + SiteItems(lsda, rest);
    }
  }

  // ---- Whole tables ----

  /** What a header says besides the length of the call-site table. */
  datatype Layout = Layout(landing: Option<Word>, types: Option<Types>, callEncoding: DwEhPe, endian: Endian)

  function PrintLanding(layout: Layout): (r: Bytes)
    ensures r != []
  {
    match layout.landing case None => [OMIT] case Some(address) => [ABS] + PrintFixed(address, 8, layout.endian)
  }

  /** Prints a type table position as the distance `end` from the field that holds it. */
  function PrintTypes(layout: Layout): (r: Bytes)
    ensures r != []
  {
    match layout.types case None => [OMIT] case Some(types) => [types.encoding] + EncodeUleb(types.end)
  }

  /** The type table position counted from the first byte. */
  function TypesAt(layout: Layout): Option<Types>
    requires TypesFit(layout, WORD - 1)
  {
    match layout.types
    case None => None
    case Some(types) => Some(Types(|PrintLanding(layout)| + |PrintTypes(layout)| + types.end, types.encoding))
  }

  predicate TypesFit(layout: Layout, size: nat) {
    match layout.types
    case None => true
    case Some(types) =>
      && |PrintLanding(layout)| + |PrintTypes(layout)| + types.end <= size
      && ValidEncoding(types.encoding) && !Absent(types.encoding)
  }

  function PrintHeader(layout: Layout, length: Word): Bytes {
    PrintLanding(layout) + PrintTypes(layout) + [layout.callEncoding] + EncodeUleb(length)
  }

  /** The table of `entries`, with `actions` standing for everything behind the call sites. */
  function PrintLsda(layout: Layout, entries: seq<Entry>, actions: Bytes): Bytes
    requires |PrintSites(entries, layout.callEncoding, layout.endian)| < WORD
  {
    var sites := PrintSites(entries, layout.callEncoding, layout.endian);
    PrintHeader(layout, |sites|) + sites + actions
  }

  // ---- The header ----

  lemma LandingInverts(layout: Layout, bases: Bases, tail: Bytes)
    requires layout.landing.Some? ==> bases.origin + 1 < WORD
    requires |PrintLanding(layout) + tail| < WORD
    ensures ReadLandingBase(PrintLanding(layout) + tail, bases, layout.endian)
            == Ok((tail, match layout.landing case None => bases.function_ case Some(a) => a))
  {
    hide ReadUnsigned, PrintFixed;
    var bytes := PrintLanding(layout) + tail;
    match layout.landing
    case None =>
    case Some(a) =>
      assert bytes[1..] == PrintFixed(a, 8, layout.endian) + tail;
      Powers();
      FixedInverts(a, 8, layout.endian, tail);
  }

  lemma TypesInvert(layout: Layout, tail: Bytes)
    requires |PrintLanding(layout) + PrintTypes(layout) + tail| < WORD
    requires TypesFit(layout, |PrintLanding(layout) + PrintTypes(layout) + tail|)
    ensures ReadTypes(PrintLanding(layout) + PrintTypes(layout) + tail, PrintTypes(layout) + tail)
            == Ok((tail, TypesAt(layout)))
  {
    hide Uleb, EncodeUleb, PrintLanding, ValidEncoding;
    var input := PrintTypes(layout) + tail;
    match layout.types
    case None =>
    case Some(types) =>
      assert input[1..] == EncodeUleb(types.end) + tail;
      UlebInverts(types.end, tail);
  }

  lemma CallTableInverts(encoding: DwEhPe, table: Bytes, actions: Bytes)
    requires |table| < WORD
    ensures ReadCallTable([encoding] + (EncodeUleb(|table|) + (table + actions))) == Ok((actions, (encoding, table)))
  {
    hide Uleb, EncodeUleb;
    SplitBehind([encoding], EncodeUleb(|table|) + (table + actions));
    UlebInverts(|table|, table + actions);
    SplitBehind(table, actions);
  }

  lemma SplitBehind(front: Bytes, back: Bytes)
    ensures (front + back)[..|front|] == front && (front + back)[|front|..] == back
  {
  }

  /** The header of a printed table is read back, and the action table starts where the chains were printed. */
  lemma HeaderInverts(layout: Layout, bases: Bases, table: Bytes, actions: Bytes)
    requires layout.landing.Some? ==> bases.origin + 1 < WORD
    requires |table| < WORD
    requires var size := |PrintHeader(layout, |table|) + table + actions|; size < WORD && TypesFit(layout, size)
    requires Plain(layout.callEncoding)
    ensures var bytes := PrintHeader(layout, |table|) + table + actions;
            NewLsda(bytes, bases, layout.endian)
            == Ok(Lsda(bytes, bases, layout.endian,
                       match layout.landing case None => bases.function_ case Some(a) => a,
                       TypesAt(layout), layout.callEncoding, table, |bytes| - |actions|))
  {
    hide ReadLandingBase, ReadTypes, ReadCallTable, PrintLanding, PrintTypes, TypesAt, ValidEncoding, EncodeUleb;
    var bytes := PrintHeader(layout, |table|) + table + actions;
    var tail2 := [layout.callEncoding] + (EncodeUleb(|table|) + (table + actions));
    var tail1 := PrintTypes(layout) + tail2;
    assert bytes == PrintLanding(layout) + tail1;
    assert bytes == PrintLanding(layout) + PrintTypes(layout) + tail2;
    LandingInverts(layout, bases, tail1);
    TypesInvert(layout, tail2);
    CallTableInverts(layout.callEncoding, table, actions);
  }

  function LandingBase(layout: Layout, bases: Bases): Word {
    match layout.landing case None => bases.function_ case Some(a) => a
  }

  /** Every field fits its format, and every length and address fits a word. */
  predicate PrintableTable(layout: Layout, bases: Bases, entries: seq<Entry>, actions: Bytes) {
    && |PrintSites(entries, layout.callEncoding, layout.endian)| < WORD
    && |PrintLsda(layout, entries, actions)| < WORD && TypesFit(layout, |PrintLsda(layout, entries, actions)|)
    && (layout.landing.Some? ==> bases.origin + 1 < WORD)
    && Plain(layout.callEncoding)
    && forall i | 0 <= i < |entries| :: Printable(entries[i], layout.callEncoding, LandingBase(layout, bases))
  }

  /** Whether a parsed table has exactly these entries, with `actions` behind them. */
  predicate Recovered(lsda: Lsda, entries: seq<Entry>, actions: Bytes) {
    && lsda.actionOffset <= |lsda.bytes| < WORD && lsda.bytes[lsda.actionOffset..] == actions
    && |Sites(lsda)| == |entries|
    && forall i | 0 <= i < |entries| :: Reports(Sites(lsda)[i], entries[i], lsda.landingBase)
  }

  /**
   * For any site list and any action bytes: parsing the printed table gives back exactly its entries in order,
   * each with the landing pad counted from the landing base, and the first action byte behind the last entry.
   */
  lemma TableRoundTrip(layout: Layout, bases: Bases, entries: seq<Entry>, actions: Bytes)
    requires PrintableTable(layout, bases, entries, actions)
    ensures var r := NewLsda(PrintLsda(layout, entries, actions), bases, layout.endian);
            && r.Ok? && r.value.bytes == PrintLsda(layout, entries, actions)
            && r.value.bases == bases && r.value.endian == layout.endian
            && r.value.landingBase == LandingBase(layout, bases) && r.value.types == TypesAt(layout)
            && Recovered(r.value, entries, actions)
  {
    hide PrintHeader, NewLsda, PrintSites, Plain, Printable, SiteItems, TypesFit, TypesAt, Reports;
    var table := PrintSites(entries, layout.callEncoding, layout.endian);
    HeaderInverts(layout, bases, table, actions);
    var lsda := NewLsda(PrintLsda(layout, entries, actions), bases, layout.endian).value;
    SplitBehind(PrintHeader(layout, |table|) + table, actions);
    SitesInvert(entries, lsda);
  }
}
