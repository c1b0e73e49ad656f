/** Type entries and filter lists printed behind the action table, and that the table gives them back. */
module PrintedTypes {
  import opened Words
  import opened Leb128
  import opened Encoding
  import opened Table
  import opened TypeTable
  import CxxScan
  import RoundTrip

  // ---- The reverse type table ----

  /** Whether an entry of the format can store the value. */
  predicate Storable(value: int, encoding: DwEhPe)
    requires FixedWidth(encoding)
  {
    var w := Width(encoding).value;
    if Format(encoding) in {S2, S4, S8} then -(Pow2(8 * w - 1) as int) <= value < Pow2(8 * w - 1)
    else 0 <= value < Pow2(8 * w)
  }

  /** One stored value, as a two's complement number where it is negative. */
  function PrintEntry(value: int, encoding: DwEhPe, endian: Endian): (r: Bytes)
    requires FixedWidth(encoding) && Storable(value, encoding)
    ensures |r| == Width(encoding).value
  {
    var w := Width(encoding).value;
    RoundTrip.PrintFixed(if value < 0 then value + Pow2(8 * w) else value, w, endian)
  }

  predicate AllStorable(values: seq<int>, encoding: DwEhPe)
    requires FixedWidth(encoding)
  {
    forall i | 0 <= i < |values| :: Storable(values[i], encoding)
  }

  /** The first value stands last. */
  function PrintEntries(values: seq<int>, encoding: DwEhPe, endian: Endian): (r: Bytes)
    requires FixedWidth(encoding) && AllStorable(values, encoding)
    ensures |r| == |values| * Width(encoding).value
  {
    if values == [] then []
    else
      assert |values| * Width(encoding).value == |values[1..]| * Width(encoding).value + Width(encoding).value;
      PrintEntries(values[1..], encoding, endian) + PrintEntry(values[0], encoding, endian)
  }

  lemma EntryInverts(value: int, encoding: DwEhPe, endian: Endian)
    requires FixedWidth(encoding) && Storable(value, encoding)
    ensures EntryValue(PrintEntry(value, encoding, endian), Format(encoding), endian) == value
  {
    hide FixedValue, RoundTrip.PrintFixed, Pow2, ValidEncoding, Application;
    var w := Width(encoding).value;
    WidthIs(encoding);
    WidthFits(w);
    hide Width;
    var raw := if value < 0 then value + Pow2(8 * w) else value;
    FixedStores(raw, w, endian);
  }

  lemma WidthIs(encoding: DwEhPe)
    requires FixedWidth(encoding)
    ensures Width(encoding).value in {2, 4, 8}
  {
  }

  lemma FixedStores(value: nat, w: nat, endian: Endian)
    requires w in {2, 4, 8} && value < Pow2(8 * w)
    ensures FixedValue(RoundTrip.PrintFixed(value, w, endian), endian) == value
  {
    hide LeValue, Reverse;
    RoundTrip.FixedInverts(value, w, endian, []);
    var printed := RoundTrip.PrintFixed(value, w, endian);
    assert (printed + [])[..w] == printed;
  }

  /** Entry `i`, counted backwards from the end, is the `i`-th value. */
  lemma {:induction false} EntrySplits(values: seq<int>, encoding: DwEhPe, endian: Endian, i: nat)
    requires FixedWidth(encoding) && AllStorable(values, encoding) && 0 < i <= |values|
    ensures PrintEntries(values, encoding, endian)
            == PrintEntries(values[i..], encoding, endian) + PrintEntry(values[i - 1], encoding, endian)
               + PrintEntries(values[..i - 1], encoding, endian)
    decreases i
  {
    hide Width, PrintEntry, Storable, FixedWidth;
    if i > 1 {
      EntrySplits(values[1..], encoding, endian, i - 1);
      assert values[1..][i - 1..] == values[i..];
      assert values[..i - 1][1..] == values[1..][..i - 2];
    } else {
      assert values[..0] == [];
    }
  }

  lemma EntryAt(values: seq<int>, encoding: DwEhPe, endian: Endian, i: nat)
    requires FixedWidth(encoding) && AllStorable(values, encoding) && 0 < i <= |values|
    ensures var w := Width(encoding).value;
            var printed := PrintEntries(values, encoding, endian);
            && 0 <= |printed| - i * w && |printed| - i * w + w <= |printed|
            && printed[|printed| - i * w..|printed| - i * w + w] == PrintEntry(values[i - 1], encoding, endian)
  {
    var w := Width(encoding).value;
    hide Width, PrintEntry, PrintEntries, Storable, FixedWidth;
    EntrySplits(values, encoding, endian, i);
    var front, back := PrintEntries(values[i..], encoding, endian), PrintEntries(values[..i - 1], encoding, endian);
    assert |back| == i * w - w by { assert (i - 1) * w == i * w - w; }
    SliceMiddle(front, PrintEntry(values[i - 1], encoding, endian), back);
  }

  lemma SliceMiddle(front: Bytes, middle: Bytes, back: Bytes)
    ensures (front + middle + back)[|front|..|front| + |middle|] == middle
  {
  }

  /** What a type entry with this value is read as, where its field is at `field`. */
  predicate ReadsAs(r: Result<Target, LsdaError>, value: int, encoding: DwEhPe, field: nat, bases: Bases) {
    if field >= WORD then r == Err(Overflow) else StandsFor(r, encoding, value, field, bases)
  }

  /** The bytes in front of the end of the type table are the printed entries. */
  predicate HoldsTypes(types: Types, lsda: Lsda, front: Bytes, values: seq<int>) {
    && types.end <= |lsda.bytes| < WORD
    && FixedWidth(types.encoding) && Application(types.encoding) != ALIGN && AllStorable(values, types.encoding)
    && lsda.bytes[..types.end] == front + PrintEntries(values, types.encoding, lsda.endian)
  }

  /** Printed type entries are read back: entry `i` is the base of its own field plus the `i`-th value. */
  lemma TypesInvert(types: Types, lsda: Lsda, front: Bytes, values: seq<int>, i: nat)
    requires HoldsTypes(types, lsda, front, values) && 0 < i <= |values|
    ensures var at := types.end - i * Width(types.encoding).value;
            && at >= 0 && i < WORD
            && ReadsAs(GetType(types, lsda, i), values[i - 1], types.encoding, lsda.bases.origin + at, lsda.bases)
  {
    hide GetType, PrintEntries, Width, StandsFor, EntryValue, PrintEntry, Storable;
    var encoding, endian := types.encoding, lsda.endian;
    var w := Width(encoding).value;
    var printed := PrintEntries(values, encoding, endian);
    EntryAt(values, encoding, endian, i);
    EntryInverts(values[i - 1], encoding, endian);
    WidthIs(encoding);
    AtLeastOnce(i, w);
    EntryIs(types, lsda, i);
    EndOfEntry(types.end, i, w);
    var at := types.end - i * w;
    var within := |printed| - i * w;
    var whole := lsda.bytes[..types.end];
    SliceBehind(front, printed, within, within + w);
    assert whole == front + printed && at == |front| + within;
    SlicePrefix(lsda.bytes, types.end, at, at + w);
  }

  /** The value to store for a target address in a field: the distance from what the encoding counts from. */
  predicate StoresTarget(value: int, target: Word, encoding: DwEhPe, field: int, bases: Bases) {
    var relative := encoding / 16 % 8;
    if relative == 0 then value == target
    else if relative == 1 then value == target - field
    else if relative == 2 then bases.text.Some? && value == target - bases.text.value
    else if relative == 3 then bases.data.Some? && value == target - bases.data.value
    else relative == 4 && value == target - bases.function_
  }

  /**
   * Target addresses survive the type table: what was stored for a target, pc-relatively to its own field or counted
   * from another base, is read back as exactly that target, indirect iff the top bit of the encoding is set.
   */
  lemma TargetsInvert(types: Types, lsda: Lsda, front: Bytes, values: seq<int>, targets: seq<Word>, i: nat)
    requires HoldsTypes(types, lsda, front, values) && 0 < i <= |values| == |targets|
    requires var field := lsda.bases.origin + (types.end - i * Width(types.encoding).value);
             field < WORD && StoresTarget(values[i - 1], targets[i - 1], types.encoding, field, lsda.bases)
    ensures i < WORD && GetType(types, lsda, i) == Ok(Target(targets[i - 1], types.encoding >= 128))
  {
    hide GetType, HoldsTypes, Width;
    TypesInvert(types, lsda, front, values, i);
  }

  /** A catch record shows the matcher exactly the type that was printed for its index. */
  lemma CatchShowsTarget(types: Types, lsda: Lsda, front: Bytes, values: seq<int>, targets: seq<Word>, i: nat)
    requires lsda.types == Some(types)
    requires HoldsTypes(types, lsda, front, values) && 0 < i <= |values| == |targets|
    requires var field := lsda.bases.origin + (types.end - i * Width(types.encoding).value);
             field < WORD && StoresTarget(values[i - 1], targets[i - 1], types.encoding, field, lsda.bases)
    ensures i < WORD
    ensures CxxScan.CatchClause(lsda, i) == Ok(CxxScan.Catch(i, Target(targets[i - 1], types.encoding >= 128)))
  {
    hide GetType, HoldsTypes, Width;
    TargetsInvert(types, lsda, front, values, targets, i);
  }

  lemma SlicePrefix(s: Bytes, end: nat, i: nat, j: nat)
    requires i <= j <= end <= |s|
    ensures s[..end][i..j] == s[i..j]
  {
  }

  lemma SliceBehind(front: Bytes, back: Bytes, i: nat, j: nat)
    requires i <= j <= |back|
    ensures (front + back)[|front| + i..|front| + j] == back[i..j]
  {
  }

  lemma AtLeastOnce(i: nat, w: nat)
    requires w in {2, 4, 8}
    ensures i <= i * w
  {
    if w == 2 { assert i * w == 2 * i; } else if w == 4 { assert i * w == 4 * i; } else { assert i * w == 8 * i; }
  }

  // ---- Filter lists ----

  function PrintFilter(list: seq<NonZero>): (r: Bytes)
    ensures r != []
  {
    if list == [] then [0] else EncodeUleb(list[0]) + PrintFilter(list[1..])
  }

  function PrintFilters(lists: seq<seq<NonZero>>): Bytes {
    if lists == [] then [] else PrintFilter(lists[0]) + PrintFilters(lists[1..])
  }

  function Indices(list: seq<NonZero>): (r: seq<TypeItem>)
    ensures |r| == |list| && forall i | 0 <= i < |list| :: r[i] == Ok(list[i])
  {
    if list == [] then [] else [Ok(list[0])] + Indices(list[1..])
  }

  lemma {:induction false} FilterInverts(list: seq<NonZero>, tail: Bytes)
    ensures FilterItems(PrintFilter(list) + tail) == Indices(list)
    decreases |list|
  {
    hide Uleb, EncodeUleb;
    if list == [] {
      ZeroEnds(tail);
    } else {
      var rest := PrintFilter(list[1..]) + tail;
      assert PrintFilter(list) + tail == EncodeUleb(list[0]) + rest;
      UlebInverts(list[0], rest);
      FilterInverts(list[1..], tail);
    }
  }

  lemma ZeroEnds(tail: Bytes)
    ensures Uleb([0] + tail) == Ok((tail, 0))
  {
    UlebInverts(0, tail);
  }

  lemma {:induction false} FilterSplits(lists: seq<seq<NonZero>>, k: nat)
    requires k < |lists|
    ensures PrintFilters(lists)
            == PrintFilters(lists[..k]) + PrintFilter(lists[k]) + PrintFilters(lists[k + 1..])
    decreases k
  {
    hide PrintFilter;
    if k == 0 {
      assert lists[..0] == [];
    } else {
      FilterSplits(lists[1..], k - 1);
      assert lists[..k][1..] == lists[1..][..k - 1];
      assert lists[k + 1..] == lists[1..][k..];
    }
  }

  lemma DropTwice(s: Bytes, i: nat, j: nat)
    requires i + j <= |s|
    ensures s[i..][j..] == s[i + j..]
  {
  }

  lemma DropFront(front: Bytes, middle: Bytes, back: Bytes, after: Bytes)
    ensures (front + middle + back + after)[|front|..] == middle + (back + after)
  {
  }

  /** The one-based index of a printed list: the discriminator of a record that names it is the negated index. */
  function FilterIndex(lists: seq<seq<NonZero>>, k: nat): (r: nat)
    requires k < |lists|
    ensures r > 0
  {
    |PrintFilters(lists[..k])| + 1
  }

  /** Printed filter lists are read back. */
  lemma FiltersInvert(lsda: Lsda, lists: seq<seq<NonZero>>, after: Bytes, k: nat)
    requires lsda.types.Some? && lsda.types.value.end <= |lsda.bytes| < WORD && k < |lists|
    requires lsda.bytes[lsda.types.value.end..] == PrintFilters(lists) + after
    ensures FilterIndex(lists, k) < WORD
    ensures FilterTypes(lsda, FilterIndex(lists, k)) == Ok(Indices(lists[k]))
  {
    hide PrintFilters, PrintFilter, FilterItems, FilterTypes, Indices;
    var front, back := PrintFilters(lists[..k]), PrintFilters(lists[k + 1..]);
    var end := lsda.types.value.end;
    FilterSplits(lists, k);
    InputAt(lsda.bytes, end, PrintFilters(lists), front, PrintFilter(lists[k]), back, after);
    ItemsOf(lsda, |front| + 1);
    FilterInverts(lists[k], back + after);
  }

  /** What stands in the bytes at a part of the printed lists. */
  lemma InputAt(bytes: Bytes, end: nat, all: Bytes, front: Bytes, middle: Bytes, back: Bytes, after: Bytes)
    requires end <= |bytes| && bytes[end..] == all + after && all == front + middle + back && middle != []
    ensures end + |front| < |bytes|
    ensures bytes[end + |front|..] == middle + (back + after)
  {
    DropTwice(bytes, end, |front|);
    DropFront(front, middle, back, after);
  }

  /** A filter list is read from its one-based offset behind the type table. */
  lemma ItemsOf(lsda: Lsda, index: NonZero)
    requires lsda.types.Some? && lsda.types.value.end + index <= |lsda.bytes| < WORD
    ensures FilterTypes(lsda, index) == Ok(FilterItems(lsda.bytes[lsda.types.value.end + (index - 1)..]))
  {
    hide FilterItems;
  }

  // ---- Whole tables ----

  /** What stands behind the call sites: `actions` with any padding, the type entries, the filter lists, the rest. */
  function Behind(
    actions: Bytes, values: seq<int>, encoding: DwEhPe, endian: Endian, lists: seq<seq<NonZero>>, after: Bytes): Bytes
    requires FixedWidth(encoding) && AllStorable(values, encoding)
  {
    actions + PrintEntries(values, encoding, endian) + (PrintFilters(lists) + after)
  }

  /** The header names the position behind the type entries. */
  predicate TypesInPlace(layout: RoundTrip.Layout, entries: seq<RoundTrip.Entry>, actions: Bytes, values: seq<int>)
    requires layout.types.Some? && FixedWidth(layout.types.value.encoding)
  {
    var encoding := layout.types.value.encoding;
    var sites := RoundTrip.PrintSites(entries, layout.callEncoding, layout.endian);
    && Application(encoding) != ALIGN && AllStorable(values, encoding) && |sites| < WORD
    && RoundTrip.TypesFit(layout, WORD - 1)
    && RoundTrip.TypesAt(layout).value.end
       == |RoundTrip.PrintHeader(layout, |sites|)| + |sites| + |actions| + |values| * Width(encoding).value
  }

  /** What the parsed table says of its types and of the bytes on both sides of their end. */
  lemma BehindParses(
    layout: RoundTrip.Layout, bases: Bases, entries: seq<RoundTrip.Entry>, actions: Bytes, values: seq<int>,
    lists: seq<seq<NonZero>>, after: Bytes)
    requires layout.types.Some? && FixedWidth(layout.types.value.encoding)
    requires TypesInPlace(layout, entries, actions, values)
    requires var behind := Behind(actions, values, layout.types.value.encoding, layout.endian, lists, after);
             RoundTrip.PrintableTable(layout, bases, entries, behind)
    ensures var behind := Behind(actions, values, layout.types.value.encoding, layout.endian, lists, after);
            var r := NewLsda(RoundTrip.PrintLsda(layout, entries, behind), bases, layout.endian);
            && r.Ok? && r.value.bases == bases && r.value.types.Some?
            && r.value.types.value.encoding == layout.types.value.encoding
            && (exists front :: HoldsTypes(r.value.types.value, r.value, front, values))
            && r.value.bytes[r.value.types.value.end..] == PrintFilters(lists) + after
  {
    hide NewLsda, PrintEntries, PrintFilters, RoundTrip.PrintHeader, RoundTrip.PrintSites, RoundTrip.Recovered,
         RoundTrip.Plain, RoundTrip.Printable, RoundTrip.TypesAt, RoundTrip.TypesFit, FixedWidth, Storable, Application;
    var encoding := layout.types.value.encoding;
    var behind := Behind(actions, values, encoding, layout.endian, lists, after);
    RoundTrip.TableRoundTrip(layout, bases, entries, behind);
    var lsda := NewLsda(RoundTrip.PrintLsda(layout, entries, behind), bases, layout.endian).value;
    var sites := RoundTrip.PrintSites(entries, layout.callEncoding, layout.endian);
    var front := RoundTrip.PrintHeader(layout, |sites|) + sites + actions;
    var printed := front + PrintEntries(values, encoding, layout.endian);
    assert lsda.bytes == printed + (PrintFilters(lists) + after);
    TypesShape(layout);
    assert lsda.types.value.end == |printed|;
    RoundTrip.SplitBehind(printed, PrintFilters(lists) + after);
    assert HoldsTypes(lsda.types.value, lsda, front, values);
  }

  /** Every type entry and every filter list of a parsed table. */
  predicate Recovers(lsda: Lsda, types: Types, values: seq<int>, lists: seq<seq<NonZero>>)
    requires FixedWidth(types.encoding)
  {
    && (forall i | 0 < i <= |values| :: RecoversType(lsda, types, values, i))
    && (forall k | 0 <= k < |lists| :: RecoversFilter(lsda, lists, k))
  }

  predicate RecoversType(lsda: Lsda, types: Types, values: seq<int>, i: nat)
    requires FixedWidth(types.encoding) && 0 < i <= |values|
  {
    var at := types.end - i * Width(types.encoding).value;
    && at >= 0 && i < WORD
    && ReadsAs(GetType(types, lsda, i), values[i - 1], types.encoding, lsda.bases.origin + at, lsda.bases)
  }

  predicate RecoversFilter(lsda: Lsda, lists: seq<seq<NonZero>>, k: nat)
    requires k < |lists|
  {
    FilterIndex(lists, k) < WORD && FilterTypes(lsda, FilterIndex(lists, k)) == Ok(Indices(lists[k]))
  }

  /** A whole printed table gives back every type entry and every filter list. */
  lemma TypesRoundTrip(
    layout: RoundTrip.Layout, bases: Bases, entries: seq<RoundTrip.Entry>, actions: Bytes, values: seq<int>,
    lists: seq<seq<NonZero>>, after: Bytes)
    requires layout.types.Some? && FixedWidth(layout.types.value.encoding)
    requires TypesInPlace(layout, entries, actions, values)
    requires var behind := Behind(actions, values, layout.types.value.encoding, layout.endian, lists, after);
             RoundTrip.PrintableTable(layout, bases, entries, behind)
    ensures var behind := Behind(actions, values, layout.types.value.encoding, layout.endian, lists, after);
            var r := NewLsda(RoundTrip.PrintLsda(layout, entries, behind), bases, layout.endian);
            && r.Ok? && r.value.bases == bases && r.value.types.Some?
            && r.value.types.value.encoding == layout.types.value.encoding
            && Recovers(r.value, r.value.types.value, values, lists)
  {
    hide NewLsda, HoldsTypes, RecoversType, RecoversFilter, PrintFilters, FixedWidth;
    var behind := Behind(actions, values, layout.types.value.encoding, layout.endian, lists, after);
    BehindParses(layout, bases, entries, actions, values, lists, after);
    var lsda := NewLsda(RoundTrip.PrintLsda(layout, entries, behind), bases, layout.endian).value;
    var types := lsda.types.value;
    hide RoundTrip.PrintableTable, RoundTrip.PrintLsda, Behind, TypesInPlace;
    var front :| HoldsTypes(types, lsda, front, values);
    Sizes(types, lsda, front, values);
    forall i | 0 < i <= |values| ensures RecoversType(lsda, types, values, i) {
      TypeRecovered(types, lsda, front, values, i);
    }
    forall k | 0 <= k < |lists| ensures RecoversFilter(lsda, lists, k) {
      FilterRecovered(lsda, lists, after, k);
    }
  }

  lemma Sizes(types: Types, lsda: Lsda, front: Bytes, values: seq<int>)
    requires HoldsTypes(types, lsda, front, values)
    ensures types.end <= |lsda.bytes| < WORD
  {
  }

  lemma TypeRecovered(types: Types, lsda: Lsda, front: Bytes, values: seq<int>, i: nat)
    requires FixedWidth(types.encoding) && HoldsTypes(types, lsda, front, values) && 0 < i <= |values|
    ensures RecoversType(lsda, types, values, i)
  {
    hide HoldsTypes, GetType, Width, ReadsAs;
    TypesInvert(types, lsda, front, values, i);
  }

  lemma FilterRecovered(lsda: Lsda, lists: seq<seq<NonZero>>, after: Bytes, k: nat)
    requires lsda.types.Some? && lsda.types.value.end <= |lsda.bytes| < WORD && k < |lists|
    requires lsda.bytes[lsda.types.value.end..] == PrintFilters(lists) + after
    ensures RecoversFilter(lsda, lists, k)
  {
    hide FilterTypes, PrintFilters;
    FiltersInvert(lsda, lists, after, k);
  }

  lemma TypesShape(layout: RoundTrip.Layout)
    requires layout.types.Some? && RoundTrip.TypesFit(layout, WORD - 1)
    ensures RoundTrip.TypesAt(layout).Some? && RoundTrip.TypesAt(layout).value.encoding == layout.types.value.encoding
  {
  }
}
