/** GCC-style language specific data: header, call sites, action records, reverse type table and filter lists. */
module Table {
  import opened Words
  import opened Leb128
  import opened Encoding

  type NonZero = x: Word | x > 0 witness 1

  /** One call site: a function-relative range, its landing pad and its one-based action offset. */
  datatype Site = Site(start: Word, length: Word, landing: Option<Word>, action: Option<NonZero>)

  datatype Kind = Cleanup | Catch(index: NonZero) | Filter(index: NonZero)

  datatype Types = Types(end: Word, encoding: DwEhPe)

  datatype Lsda = Lsda(
    bytes: Bytes,
    bases: Bases,
    endian: Endian,
    landingBase: Word,
    types: Option<Types>,
    callEncoding: DwEhPe,
    callSites: Bytes,
    actionOffset: Word)

  type SiteItem = Result<Site, LsdaError>
  type KindItem = Result<Kind, LsdaError>
  type TypeItem = Result<NonZero, LsdaError>

  // ---- Header ----

  /** What the header says about landing pads: the function, or an explicit direct address. */
  function ReadLandingBase(bytes: Bytes, bases: Bases, endian: Endian): Parse<Word> {
    var (input, encoding) :- ReadByte(bytes);
    if Absent(encoding) then Ok((input, bases.function_))
    else
      var (input, target) :- ReadTarget(bytes, input, encoding, bases, endian);
      if target.indirect then Err(Encoding) else Ok((input, target.address))
  }

  function ReadTypes(bytes: Bytes, input: Bytes): Parse<Option<Types>> {
    var (input, encoding) :- ReadByte(input);
    if Absent(encoding) then Ok((input, None))
    else
      var (input, offset) :- Uleb(input);
      var position :- Position(bytes, input);
      var end := position + offset;
      if end >= WORD then Err(Overflow)
      else if !ValidEncoding(encoding) then Err(Encoding)
      else if end > |bytes| then Err(Table)
      else Ok((input, Some(Types(end, encoding))))
  }

  /** The encoding of call-site fields and the exact bytes of the call-site table. */
  function ReadCallTable(input: Bytes): Parse<(DwEhPe, Bytes)> {
    var (input, encoding) :- ReadByte(input);
    var (input, length) :- Uleb(input);
    var (actions, callSites) :- TakeBytes(input, length);
    Ok((actions, (encoding, callSites)))
  }

  function NewLsda(bytes: Bytes, bases: Bases, endian: Endian): Result<Lsda, LsdaError> {
    var (input, landingBase) :- ReadLandingBase(bytes, bases, endian);
    var (input, types) :- ReadTypes(bytes, input);
    var (actions, (callEncoding, callSites)) :- ReadCallTable(input);
    var actionOffset :- Position(bytes, actions);
    if ValidEncoding(callEncoding) && !Absent(callEncoding)
    then Ok(Lsda(bytes, bases, endian, landingBase, types, callEncoding, callSites, actionOffset))
    else Err(Encoding)
  }

  /** What a parsed header says lies within the bytes, in valid encodings, with the action table behind the sites. */
  lemma ParsedIsBounded(bytes: Bytes, bases: Bases, endian: Endian)
    requires |bytes| < WORD && NewLsda(bytes, bases, endian).Ok?
    ensures var lsda := NewLsda(bytes, bases, endian).value;
            && lsda.bytes == bytes && lsda.bases == bases && lsda.endian == endian
            && (lsda.types.Some? ==>
                  && lsda.types.value.end <= |bytes| && lsda.types.value.encoding != 255
                  && ValidEncoding(lsda.types.value.encoding))
            && lsda.callEncoding != 255 && ValidEncoding(lsda.callEncoding)
            && |lsda.callSites| <= lsda.actionOffset <= |bytes|
            && lsda.callSites == bytes[lsda.actionOffset - |lsda.callSites|..lsda.actionOffset]
  {
    hide ReadTarget, Uleb, ValidEncoding, IsSuffix, ReadLandingBase, ReadTypes, ReadCallTable;
    var (input, base) := ReadLandingBase(bytes, bases, endian).value;
    LandingIsSuffix(bytes, bases, endian);
    var (input2, types) := ReadTypes(bytes, input).value;
    TypesIsSuffix(bytes, input);
    TypesAreInside(bytes, input);
    CallTableIsSlice(bytes, input2);
  }

  lemma TypesAreInside(bytes: Bytes, input: Bytes)
    requires ReadTypes(bytes, input).Ok?
    ensures var types := ReadTypes(bytes, input).value.1;
            types.Some? ==>
              types.value.end <= |bytes| && types.value.encoding != 255 && ValidEncoding(types.value.encoding)
  {
    hide Uleb, ValidEncoding;
  }

  predicate IsSuffix(rest: Bytes, bytes: Bytes) {
    |rest| <= |bytes| && rest == bytes[|bytes| - |rest|..]
  }

  lemma ScalarIsSuffix(input: Bytes, format: DwEhPe, endian: Endian)
    requires ReadScalar(input, format, endian).Ok?
    ensures IsSuffix(ReadScalar(input, format, endian).value.0, input)
  {
    hide FixedValue, GroupSum, SignedSum, Continued, Pow2;
  }

  lemma SuffixOfSuffix(rest: Bytes, input: Bytes, bytes: Bytes)
    requires IsSuffix(rest, input) && IsSuffix(input, bytes)
    ensures IsSuffix(rest, bytes)
  {
    var i := |bytes| - |input|;
    assert bytes[i..][|input| - |rest|..] == bytes[|bytes| - |rest|..];
  }

  lemma AlignedIsSuffix(whole: Bytes, input: Bytes, bases: Bases)
    requires Aligned(whole, input, bases).Ok?
    ensures IsSuffix(Aligned(whole, input, bases).value, input)
  {
  }

  lemma TargetIsSuffix(whole: Bytes, input: Bytes, encoding: DwEhPe, bases: Bases, endian: Endian)
    requires ReadTarget(whole, input, encoding, bases, endian).Ok?
    ensures IsSuffix(ReadTarget(whole, input, encoding, bases, endian).value.0, input)
  {
    hide ReadScalar, Aligned, ValidEncoding, BaseOf, IsSuffix;
    var field := if Application(encoding) == ALIGN then Aligned(whole, input, bases).value else input;
    ScalarIsSuffix(field, Format(encoding), endian);
    if Application(encoding) == ALIGN {
      AlignedIsSuffix(whole, input, bases);
      SuffixOfSuffix(ReadScalar(field, Format(encoding), endian).value.0, field, input);
    }
  }

  lemma LandingIsSuffix(bytes: Bytes, bases: Bases, endian: Endian)
    requires ReadLandingBase(bytes, bases, endian).Ok?
    ensures IsSuffix(ReadLandingBase(bytes, bases, endian).value.0, bytes)
  {
    hide ReadTarget, ValidEncoding;
    assert IsSuffix(bytes[1..], bytes);
    if !Absent(bytes[0]) {
      TargetIsSuffix(bytes, bytes[1..], bytes[0], bases, endian);
      SuffixOfSuffix(ReadTarget(bytes, bytes[1..], bytes[0], bases, endian).value.0, bytes[1..], bytes);
    }
  }

  lemma TypesIsSuffix(bytes: Bytes, input: Bytes)
    requires ReadTypes(bytes, input).Ok? && IsSuffix(input, bytes)
    ensures IsSuffix(ReadTypes(bytes, input).value.0, bytes)
  {
    hide ValidEncoding, GroupSum, Continued;
    var rest := ReadTypes(bytes, input).value.0;
    assert IsSuffix(rest, input);
    SuffixOfSuffix(rest, input, bytes);
  }

  lemma CallTableIsSlice(bytes: Bytes, input: Bytes)
    requires ReadCallTable(input).Ok? && IsSuffix(input, bytes)
    ensures var (actions, (_, sites)) := ReadCallTable(input).value;
            && |sites| <= |bytes| - |actions| <= |bytes|
            && sites == bytes[|bytes| - |actions| - |sites|..|bytes| - |actions|]
  {
    hide GroupSum, Continued, IsSuffix;
    var rest := Uleb(input[1..]).value.0;
    assert IsSuffix(input[1..], input) && IsSuffix(rest, input[1..]) by { UlebIsSuffix(input); }
    SuffixOfSuffix(rest, input[1..], input);
    SuffixOfSuffix(rest, input, bytes);
    var (actions, (_, sites)) := ReadCallTable(input).value;
    FrontOfSuffix(rest, |sites|, bytes);
  }

  lemma UlebIsSuffix(input: Bytes)
    requires input != [] && Uleb(input[1..]).Ok?
    ensures IsSuffix(input[1..], input) && IsSuffix(Uleb(input[1..]).value.0, input[1..])
  {
    hide GroupSum, Continued;
  }

  lemma FrontOfSuffix(rest: Bytes, n: nat, bytes: Bytes)
    requires IsSuffix(rest, bytes) && n <= |rest|
    ensures |rest| <= |bytes| && rest[..n] == bytes[|bytes| - |rest|..|bytes| - |rest| + n]
  {
  }

  // ---- Call sites ----

  function CallSite(input: Bytes, lsda: Lsda): (r: Parse<Site>)
    ensures r.Ok? ==> |r.value.0| < |input|
  {
    var (input, start) :- ReadOffset(input, lsda.callEncoding, lsda.endian);
    var (input, length) :- ReadOffset(input, lsda.callEncoding, lsda.endian);
    var (input, landing) :- ReadOffset(input, lsda.callEncoding, lsda.endian);
    var (input, action) :- Uleb(input);
    if landing > 0 && lsda.landingBase + landing >= WORD then Err(Overflow)
    else
      Ok((input, Site(start, length,
                      if landing == 0 then None else Some(lsda.landingBase + landing),
                      if action == 0 then None else Some(action))))
  }

  /** Everything the call-site iterator yields from `input`: entries up to the end or the first error. */
  function SiteItems(lsda: Lsda, input: Bytes): seq<SiteItem>
    decreases |input|
  {
    if input == [] then []
    else
      match CallSite(input, lsda)
      case Ok((rest, site)) => [Ok(site)] + SiteItems(lsda, rest)
      case Err(e) => [Err(e)]
  }

  function Sites(lsda: Lsda): seq<SiteItem> {
    SiteItems(lsda, lsda.callSites)
  }

  predicate Covers(site: Site, pc: int) {
    site.start <= pc < site.start + site.length
  }

  /** The early-exit search: stops at a covering entry and at the first entry that starts after `pc`. */
  function FindSite(items: seq<SiteItem>, pc: Word): Result<Option<Site>, LsdaError> {
    if items == [] then Ok(None)
    else
      var site :- items[0];
      if site.start + site.length >= WORD then Err(Overflow)
      else if Covers(site, pc) then Ok(Some(site))
      else if pc < site.start then Ok(None)
      else FindSite(items[1..], pc)
  }

  /** The entry for an absolute program counter. */
  function SiteAt(lsda: Lsda, pc: Word): Result<Option<Site>, LsdaError> {
    if pc < lsda.bases.function_ then Err(Table) else FindSite(Sites(lsda), pc - lsda.bases.function_)
  }

  /** A landing pad that the parser reports is never the zero address. */
  lemma {:induction false} LandingNotZero(lsda: Lsda, input: Bytes)
    ensures forall i | 0 <= i < |SiteItems(lsda, input)| ::
              var item := SiteItems(lsda, input)[i];
              item.Ok? && item.value.landing.Some? ==> item.value.landing.value > 0
    decreases |input|
  {
    hide ReadOffset, Uleb;
    if input != [] && CallSite(input, lsda).Ok? {
      LandingNotZero(lsda, CallSite(input, lsda).value.0);
    }
  }

  lemma {:induction false} FoundIsItem(items: seq<SiteItem>, pc: Word)
    ensures match FindSite(items, pc)
            case Ok(Some(site)) => exists i | 0 <= i < |items| :: items[i] == Ok(site)
            case _ => true
    decreases |items|
  {
    if items != [] { FoundIsItem(items[1..], pc); }
  }

  /** Neither is the landing pad of the call site that a lookup finds. */
  lemma FoundLandingNotZero(lsda: Lsda, pc: Word)
    ensures match SiteAt(lsda, pc)
            case Ok(Some(site)) => site.landing.Some? ==> site.landing.value > 0
            case _ => true
  {
    hide SiteItems, FindSite;
    if pc >= lsda.bases.function_ {
      LandingNotZero(lsda, lsda.callSites);
      FoundIsItem(Sites(lsda), pc - lsda.bases.function_);
    }
  }

  // ---- Action chains ----

  function NewKind(index: SWord): Result<Kind, LsdaError> {
    if index == 0 then Ok(Cleanup)
    else if index > 0 then Ok(Catch(index))
    else Ok(Filter(-(index as int)))
  }

  /** Reads the record at the front of `input` and resolves its self-relative link. */
  function Record(whole: Bytes, floor: Word, input: Bytes): Result<(Kind, Option<Bytes>), LsdaError> {
    var (link, index) :- Sleb(input);
    var (_, delta) :- Sleb(link);
    var kind :- NewKind(index);
    if delta == 0 then Ok((kind, None))
    else
      var at :- Position(whole, link);
      var target := at + delta;
      if floor <= target < |whole| then Ok((kind, Some(whole[target..]))) else Err(Table)
  }

  /** What a chain iterator still yields: kinds, then an error if one ends it. */
  function ChainItems(whole: Bytes, floor: Word, next: Option<Bytes>, fuel: nat): seq<KindItem>
    decreases fuel
  {
    match next
    case None => []
    case Some(input) =>
      if fuel == 0 then [Err(Loop)]
      else
        match Record(whole, floor, input)
        case Ok((kind, next')) => [Ok(kind)] + ChainItems(whole, floor, next', fuel - 1)
        case Err(e) => [Err(e)]
  }

  /** Where the chain of a one-based action offset starts. */
  function ChainStart(lsda: Lsda, action: NonZero): (r: Result<Word, LsdaError>)
    ensures r.Ok? ==> lsda.actionOffset <= r.value < |lsda.bytes|
  {
    var start := lsda.actionOffset + (action - 1);
    if start >= WORD then Err(Overflow)
    else if start < |lsda.bytes| then Ok(start)
    else Err(Table)
  }

  /** All items of the chain of `action`. */
  function Chain(lsda: Lsda, action: NonZero): Result<seq<KindItem>, LsdaError> {
    var start :- ChainStart(lsda, action);
    Ok(ChainItems(lsda.bytes, lsda.actionOffset, Some(lsda.bytes[start..]), |lsda.bytes| + 1))
  }

  // ---- Filter lists ----

  function FilterItems(input: Bytes): seq<TypeItem>
    decreases |input|
  {
    match Uleb(input)
    case Ok((rest, index)) => if index == 0 then [] else [Ok(index)] + FilterItems(rest)
    case Err(e) => [Err(e)]
  }

  function FilterStart(lsda: Lsda, index: NonZero): (r: Result<Word, LsdaError>)
    ensures r.Ok? ==> r.value <= |lsda.bytes|
  {
    match lsda.types
    case None => Err(Table)
    case Some(types) =>
      var start := types.end + (index - 1);
      if start >= WORD then Err(Overflow) else if start <= |lsda.bytes| then Ok(start) else Err(Table)
  }

  function FilterTypes(lsda: Lsda, index: NonZero): Result<seq<TypeItem>, LsdaError> {
    var start :- FilterStart(lsda, index);
    Ok(FilterItems(lsda.bytes[start..]))
  }

  /** Chains start inside the bytes, and filter lists inside them or at their end. */
  lemma StartsMean(lsda: Lsda, action: NonZero, index: NonZero)
    requires |lsda.bytes| < WORD
    ensures Chain(lsda, action).Ok? <==> lsda.actionOffset + action <= |lsda.bytes|
    ensures FilterTypes(lsda, index).Ok? <==>
            lsda.types.Some? && lsda.types.value.end + index <= |lsda.bytes| + 1
    ensures Chain(lsda, action).Err? ==> Chain(lsda, action).error in {Table, Overflow}
    ensures FilterTypes(lsda, index).Err? ==> FilterTypes(lsda, index).error in {Table, Overflow}
  {
    hide ChainItems, FilterItems;
  }

  // ---- Reverse type table ----

  function Width(encoding: DwEhPe): Result<nat, LsdaError> {
    var format := Format(encoding);
    if format in {ABS, U8, S8} then Ok(8)
    else if format in {U4, S4} then Ok(4)
    else if format in {U2, S2} then Ok(2)
    else Err(Encoding)
  }

  /** Decodes entry `index`, counted backwards from the end of the table. */
  function GetType(types: Types, lsda: Lsda, index: NonZero): Result<Target, LsdaError> {
    var width :- Width(types.encoding);
    var offset := index * width;
    if offset >= WORD then Err(Overflow)
    else if types.end < offset then Err(Table)
    else
      var (input, _) :- TakeBytes(lsda.bytes, types.end - offset);
      var (rest, target) :- ReadTarget(lsda.bytes, input, types.encoding, lsda.bases, lsda.endian);
      var consumed :- Position(lsda.bytes, rest);
      if consumed <= types.end then Ok(target) else Err(Table)
  }
}
