/**
 * Action tables as lists of records that link to one another in any way.
 *
 * Links are self-relative displacements, so records may share tails, link backwards or run in circles. The chain
 * of any record yields the kinds along its links.
 */
module ActionRecords {
  import opened Words
  import opened Leb128
  import opened Table
  import opened ChainFuel

  /** A record with the widths of its two fields; `link` names the record that comes next. */
  datatype ActionRecord = ActionRecord(index: SWord, indexWidth: nat, link: Option<nat>, linkWidth: nat)

  // ---- Printing ----

  function Size(r: ActionRecord): nat {
    r.indexWidth + r.linkWidth
  }

  /** The position of record `i`, counted from the first byte of the action table. */
  function Start(records: seq<ActionRecord>, i: nat): nat
    requires i <= |records|
  {
    if i == 0 then 0 else Start(records, i - 1) + Size(records[i - 1])
  }

  /** The distance from the link field of record `i` to the record that it names. */
  function Displacement(records: seq<ActionRecord>, i: nat): int
    requires i < |records| && LinksInside(records)
  {
    match records[i].link
    case None => 0
    case Some(j) => Start(records, j) - (Start(records, i) + records[i].indexWidth)
  }

  predicate LinksInside(records: seq<ActionRecord>) {
    forall i | 0 <= i < |records| :: records[i].link.Some? ==> records[i].link.value < |records|
  }

  /** Every field is wide enough for what it stores. */
  predicate WellFormed(records: seq<ActionRecord>) {
    LinksInside(records) && forall i | 0 <= i < |records| :: FieldsFit(records, i)
  }

  predicate FieldsFit(records: seq<ActionRecord>, i: nat)
    requires i < |records| && LinksInside(records)
  {
    && Spellable(records[i].index, records[i].indexWidth)
    && Spellable(Displacement(records, i), records[i].linkWidth)
    && -HALF <= Displacement(records, i) < HALF
  }

  function PrintRecord(records: seq<ActionRecord>, i: nat): (r: Bytes)
    requires i < |records| && WellFormed(records)
    ensures |r| == Size(records[i]) > 0
  {
    assert FieldsFit(records, i);
    SpellSleb(records[i].index, records[i].indexWidth) + SpellSleb(Displacement(records, i), records[i].linkWidth)
  }

  /** The first `n` records, one behind the other. */
  function PrintRecords(records: seq<ActionRecord>, n: nat): (r: Bytes)
    requires n <= |records| && WellFormed(records)
    ensures |r| == Start(records, n)
  {
    if n == 0 then [] else PrintRecords(records, n - 1) + PrintRecord(records, n - 1)
  }

  /** The table holds the printed records, and anything behind them. */
  predicate Holds(lsda: Lsda, records: seq<ActionRecord>, after: Bytes) {
    && WellFormed(records)
    && lsda.actionOffset <= |lsda.bytes| < WORD
    && lsda.bytes[lsda.actionOffset..] == PrintRecords(records, |records|) + after
  }

  /** Any links can be printed: link fields of ten groups hold every displacement of a table below 2^63 bytes. */
  lemma WideLinksFit(records: seq<ActionRecord>)
    requires LinksInside(records) && Start(records, |records|) < HALF
    requires forall i | 0 <= i < |records| ::
               Spellable(records[i].index, records[i].indexWidth) && records[i].linkWidth == 10
    ensures WellFormed(records)
  {
    hide Pow2, Start;
    Powers();
    PowMonotone(63, 69);
    forall i | 0 <= i < |records| ensures FieldsFit(records, i) {
      StartsApart(records, i, |records|);
      if records[i].link.Some? { StartsApart(records, records[i].link.value, |records|); }
    }
  }

  // ---- Positions ----

  /** Record `j` ends before or where record `i` starts. */
  lemma {:induction false} StartsApart(records: seq<ActionRecord>, j: nat, i: nat)
    requires j < i <= |records|
    ensures Start(records, j) + Size(records[j]) <= Start(records, i)
    decreases i
  {
    if j < i - 1 { StartsApart(records, j, i - 1); }
  }

  /** A printed record is followed by the records behind it. */
  lemma {:induction false} RecordAt(records: seq<ActionRecord>, n: nat, i: nat)
    requires i < n <= |records| && WellFormed(records)
    ensures Start(records, i) <= Start(records, n)
    ensures PrintRecord(records, i) <= PrintRecords(records, n)[Start(records, i)..]
    decreases n
  {
    hide PrintRecord, WellFormed, Size;
    var front := PrintRecords(records, n - 1);
    assert PrintRecords(records, n) == front + PrintRecord(records, n - 1);
    if i < n - 1 {
      RecordAt(records, n - 1, i);
      assert PrintRecords(records, n)[Start(records, i)..] == front[Start(records, i)..] + PrintRecord(records, n - 1);
    } else {
      assert PrintRecords(records, n)[Start(records, i)..] == PrintRecord(records, i);
    }
  }

  /** What stands in the table at record `i`. */
  lemma BytesAt(lsda: Lsda, records: seq<ActionRecord>, after: Bytes, i: nat)
    requires Holds(lsda, records, after) && i < |records|
    ensures lsda.actionOffset + Start(records, i) < |lsda.bytes|
    ensures PrintRecord(records, i) <= lsda.bytes[lsda.actionOffset + Start(records, i)..]
  {
    hide PrintRecord, WellFormed, PrintRecords, Size;
    RecordAt(records, |records|, i);
    StartsApart(records, i, |records|);
    var printed := PrintRecords(records, |records|);
    var tail := lsda.bytes[lsda.actionOffset..];
    assert lsda.bytes[lsda.actionOffset + Start(records, i)..] == tail[Start(records, i)..];
    assert tail[Start(records, i)..] == printed[Start(records, i)..] + after;
  }

  // ---- One record ----

  /** The two fields of a printed record are read back. */
  lemma FieldsInvert(records: seq<ActionRecord>, i: nat, behind: Bytes)
    requires WellFormed(records) && i < |records|
    ensures FieldsFit(records, i)
    ensures var link := SpellSleb(Displacement(records, i), records[i].linkWidth) + behind;
            && Sleb(PrintRecord(records, i) + behind) == Ok((link, records[i].index))
            && Sleb(link) == Ok((behind, Displacement(records, i)))
            && |link| == records[i].linkWidth + |behind|
  {
    hide Sleb, SpellSleb, Displacement, Pow2;
    assert FieldsFit(records, i);
    var r := records[i];
    var link := SpellSleb(Displacement(records, i), r.linkWidth) + behind;
    assert PrintRecord(records, i) + behind == SpellSleb(r.index, r.indexWidth) + link;
    SpelledInverts(r.index, r.indexWidth, link);
    SpelledInverts(Displacement(records, i), r.linkWidth, behind);
  }

  /** A displacement is zero exactly in a record without a link. */
  lemma Displaced(records: seq<ActionRecord>, i: nat)
    requires WellFormed(records) && i < |records|
    ensures Displacement(records, i) == 0 <==> records[i].link.None?
  {
    assert FieldsFit(records, i);
    if records[i].link.Some? {
      var j := records[i].link.value;
      if j > i { StartsApart(records, i, j); } else if j < i { StartsApart(records, j, i); }
    }
  }

  /** Where record `i` starts in the bytes of the table. */
  function Position(lsda: Lsda, records: seq<ActionRecord>, i: nat): nat
    requires i <= |records|
  {
    lsda.actionOffset + Start(records, i)
  }

  /** Reading at record `i` yields its kind, and what it links to is exactly the record that it names. */
  lemma RecordInverts(lsda: Lsda, records: seq<ActionRecord>, after: Bytes, i: nat)
    requires Holds(lsda, records, after) && i < |records|
    ensures LinksInside(records) && Position(lsda, records, i) < |lsda.bytes|
    ensures records[i].link.Some? ==> Position(lsda, records, records[i].link.value) < |lsda.bytes|
    ensures NewKind(records[i].index).Ok?
    ensures Record(lsda.bytes, lsda.actionOffset, lsda.bytes[Position(lsda, records, i)..])
            == Ok((NewKind(records[i].index).value,
                   if records[i].link.None? then None
                   else Some(lsda.bytes[Position(lsda, records, records[i].link.value)..])))
  {
    hide Sleb, SpellSleb, PrintRecords, PrintRecord, FieldsFit, Start;
    BytesAt(lsda, records, after, i);
    if records[i].link.Some? { BytesAt(lsda, records, after, records[i].link.value); }
    var input := lsda.bytes[Position(lsda, records, i)..];
    var behind := input[|PrintRecord(records, i)|..];
    assert input == PrintRecord(records, i) + behind;
    FieldsInvert(records, i, behind);
    Displaced(records, i);
  }

  // ---- Chains ----

  /** The kinds from record `i` along the links, ended by the loop error when the fuel does not last. */
  function Along(records: seq<ActionRecord>, i: nat, fuel: nat): seq<KindItem>
    requires i < |records| && LinksInside(records)
    decreases fuel
  {
    if fuel == 0 then [Err(Loop)]
    else
      [NewKind(records[i].index)]
      + match records[i].link case None => [] case Some(j) => Along(records, j, fuel - 1)
  }

  /** The discriminators from record `i` along the links, if at most `n` records end the chain. */
  function Follow(records: seq<ActionRecord>, i: nat, n: nat): Option<seq<SWord>>
    requires i < |records| && LinksInside(records)
    decreases n
  {
    if n == 0 then None
    else
      match records[i].link
      case None => Some([records[i].index])
      case Some(j) =>
        match Follow(records, j, n - 1) case None => None case Some(rest) => Some([records[i].index] + rest)
  }

  /** The record that `k` links lead to. */
  function Step(records: seq<ActionRecord>, i: nat, k: nat): (r: Option<nat>)
    requires i < |records| && LinksInside(records)
    ensures r.Some? ==> r.value < |records|
    decreases k
  {
    if k == 0 then Some(i) else match records[i].link case None => None case Some(j) => Step(records, j, k - 1)
  }

  lemma {:induction false} AlongAt(records: seq<ActionRecord>, i: nat, fuel: nat, k: nat)
    requires i < |records| && LinksInside(records)
    requires k < |Along(records, i, fuel)| && Along(records, i, fuel)[k] != Err(Loop)
    ensures Step(records, i, k).Some?
    ensures Along(records, i, fuel)[k] == NewKind(records[Step(records, i, k).value].index)
    decreases k
  {
    hide NewKind;
    if k > 0 {
      var next := records[i].link.value;
      var rest := Along(records, next, fuel - 1);
      assert Along(records, i, fuel)[k] == rest[k - 1];
      AlongAt(records, next, fuel - 1, k - 1);
    }
  }

  function Kinds(chain: seq<SWord>): (r: seq<KindItem>)
    ensures |r| == |chain| && forall i | 0 <= i < |chain| :: r[i] == NewKind(chain[i])
  {
    if chain == [] then [] else [NewKind(chain[0])] + Kinds(chain[1..])
  }

  /** Following the link of a record is stepping to the record that it names. */
  lemma HopsAlong(lsda: Lsda, records: seq<ActionRecord>, after: Bytes, i: nat)
    requires Holds(lsda, records, after) && i < |records|
    ensures LinksInside(records) && Position(lsda, records, i) < |lsda.bytes|
    ensures Hop(lsda.bytes, lsda.actionOffset, Position(lsda, records, i))
            == if records[i].link.None? then None else Some(Position(lsda, records, records[i].link.value))
  {
    hide Record, Holds, NewKind, Start, PrintRecords;
    RecordInverts(lsda, records, after, i);
  }

  /** The iterator yields the kind of the record, and then what it yields at the record that is named. */
  lemma ItemsAtRecord(lsda: Lsda, records: seq<ActionRecord>, after: Bytes, i: nat, fuel: nat)
    requires Holds(lsda, records, after) && i < |records| && fuel > 0
    ensures LinksInside(records) && Position(lsda, records, i) < |lsda.bytes|
    ensures records[i].link.Some? ==> Position(lsda, records, records[i].link.value) < |lsda.bytes|
    ensures ItemsAt(lsda.bytes, lsda.actionOffset, Position(lsda, records, i), fuel)
            == [NewKind(records[i].index)]
               + if records[i].link.None? then []
                 else ItemsAt(lsda.bytes, lsda.actionOffset, Position(lsda, records, records[i].link.value), fuel - 1)
  {
    hide Record, Holds, NewKind, Start, PrintRecords;
    RecordInverts(lsda, records, after, i);
    if records[i].link.None? { assert ChainItems(lsda.bytes, lsda.actionOffset, None, fuel - 1) == []; }
  }

  lemma NoFuel(lsda: Lsda, at: nat)
    requires at < |lsda.bytes|
    ensures ItemsAt(lsda.bytes, lsda.actionOffset, at, 0) == [Err(Loop)]
  {
  }

  /** The iterator yields the kinds along the links. */
  lemma {:induction false} ItemsAlong(lsda: Lsda, records: seq<ActionRecord>, after: Bytes, i: nat, fuel: nat)
    requires Holds(lsda, records, after) && i < |records|
    ensures LinksInside(records) && Position(lsda, records, i) < |lsda.bytes|
    ensures ItemsAt(lsda.bytes, lsda.actionOffset, Position(lsda, records, i), fuel) == Along(records, i, fuel)
    decreases fuel
  {
    hide Holds, NewKind, Position, ItemsAt, Start, Hop;
    HopsAlong(lsda, records, after, i);
    if fuel == 0 {
      NoFuel(lsda, Position(lsda, records, i));
    } else {
      ItemsAtRecord(lsda, records, after, i, fuel);
      if records[i].link.Some? { ItemsAlong(lsda, records, after, records[i].link.value, fuel - 1); }
    }
  }

  /** The links do not end within `n` records if and only if that many can be followed in the bytes. */
  lemma {:induction false} FollowReaches(lsda: Lsda, records: seq<ActionRecord>, after: Bytes, i: nat, n: nat)
    requires Holds(lsda, records, after) && i < |records|
    ensures LinksInside(records) && Position(lsda, records, i) < |lsda.bytes|
    ensures Follow(records, i, n) == None
            <==> Reach(lsda.bytes, lsda.actionOffset, Position(lsda, records, i), n).Some?
    decreases n
  {
    hide Holds, Start, Hop;
    HopsAlong(lsda, records, after, i);
    if n > 0 && records[i].link.Some? { FollowReaches(lsda, records, after, records[i].link.value, n - 1); }
  }

  lemma {:induction false} AlongIsKinds(records: seq<ActionRecord>, i: nat, n: nat)
    requires i < |records| && LinksInside(records) && Follow(records, i, n).Some?
    ensures Along(records, i, n) == Kinds(Follow(records, i, n).value)
    decreases n
  {
    hide NewKind;
    if records[i].link.Some? {
      AlongIsKinds(records, records[i].link.value, n - 1);
      assert Follow(records, i, n).value[1..] == Follow(records, records[i].link.value, n - 1).value;
    }
  }

  ghost predicate Circular(records: seq<ActionRecord>, i: nat)
    requires i < |records| && LinksInside(records)
  {
    forall n: nat :: Follow(records, i, n) == None
  }

  lemma {:induction false} FollowMore(records: seq<ActionRecord>, i: nat, n: nat, more: nat)
    requires i < |records| && LinksInside(records) && n <= more && Follow(records, i, n).Some?
    ensures Follow(records, i, more) == Follow(records, i, n)
    decreases n
  {
    if records[i].link.Some? { FollowMore(records, records[i].link.value, n - 1, more - 1); }
  }

  /** The one-based action offset that names record `i`. */
  function Action(records: seq<ActionRecord>, i: nat): NonZero
    requires i < |records| && Start(records, i) + 1 < WORD
  {
    Start(records, i) + 1
  }

  /**
   * For any links: the chain of any record yields exactly the kinds along them. Where the links end it is those
   * kinds without an error, however long the chain; where they run in a circle the chain ends in the loop error.
   */
  lemma ChainAlongLinks(lsda: Lsda, records: seq<ActionRecord>, after: Bytes, i: nat)
    requires Holds(lsda, records, after) && i < |records|
    ensures LinksInside(records) && Start(records, i) + 1 < WORD
    ensures Chain(lsda, Action(records, i)) == Ok(Along(records, i, |lsda.bytes| + 1))
    ensures forall n: nat | Follow(records, i, n).Some? ::
              Along(records, i, |lsda.bytes| + 1) == Kinds(Follow(records, i, n).value)
    ensures Err(Loop) in Along(records, i, |lsda.bytes| + 1) <==> Circular(records, i)
    ensures var items := Along(records, i, |lsda.bytes| + 1);
            Err(Loop) in items ==> forall k | 0 <= k < |items| - 1 :: items[k].Ok?
  {
    hide ChainItems, Along, Start, Reach, Hop, Kinds, Holds, Follow;
    var whole, fuel := lsda.bytes, |lsda.bytes| + 1;
    var at := Position(lsda, records, i);
    ChainStartsAt(lsda, records, after, i);
    ItemsAlong(lsda, records, after, i, fuel);
    FuelIsExact(lsda, Action(records, i));
    LoopIffReach(whole, lsda.actionOffset, at, fuel);
    FollowReaches(lsda, records, after, i, fuel);
    if Follow(records, i, fuel).Some? { AlongIsKinds(records, i, fuel); }
    forall n: nat
      ensures Follow(records, i, n).Some? ==> Follow(records, i, fuel) == Follow(records, i, n)
      ensures Follow(records, i, n) == None <==> Reach(whole, lsda.actionOffset, at, n).Some?
    {
      FollowReaches(lsda, records, after, i, n);
      if Follow(records, i, n).Some? {
        if n <= fuel { FollowMore(records, i, n, fuel); }
        if n > fuel && Follow(records, i, fuel).Some? { FollowMore(records, i, fuel, n); }
      }
    }
  }

  lemma ChainStartsAt(lsda: Lsda, records: seq<ActionRecord>, after: Bytes, i: nat)
    requires Holds(lsda, records, after) && i < |records|
    ensures LinksInside(records) && Start(records, i) + 1 < WORD && Position(lsda, records, i) < |lsda.bytes|
    ensures ChainStart(lsda, Action(records, i)) == Ok(Position(lsda, records, i))
    ensures |lsda.bytes| < WORD
  {
    hide PrintRecords, WellFormed, Start;
    HopsAlong(lsda, records, after, i);
    assert WellFormed(records);
  }
}
