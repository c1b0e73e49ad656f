/** How the Rust personality classifies one call site: the first action record decides. */
module RustScan {
  import opened Words
  import opened Leb128
  import T = Table
  import TailStability

  type NonZero = T.NonZero

  datatype Action = NoPad | Cleanup(pad: NonZero) | Catch(pad: NonZero) | Filter(pad: NonZero) | Terminate

  datatype ActionError = Parse(error: LsdaError) | Chain | Landing

  function NewPad(address: Word): Result<NonZero, ActionError> {
    if address == 0 then Err(Landing) else Ok(address)
  }

  /** The first item of the chain of `action`. */
  function FirstKind(lsda: T.Lsda, action: NonZero): Result<T.Kind, ActionError> {
    match T.Chain(lsda, action)
    case Err(e) => Err(Parse(e))
    case Ok(items) =>
      if items == [] then Err(Chain)
      else match items[0] case Ok(kind) => Ok(kind) case Err(e) => Err(Parse(e))
  }

  function Scan(lsda: T.Lsda, pc: Word): Result<Action, ActionError> {
    match T.SiteAt(lsda, pc)
    case Err(e) => Err(Parse(e))
    case Ok(None) => Ok(Terminate)
    case Ok(Some(site)) =>
      match site.landing
      case None => Ok(NoPad)
      case Some(address) =>
        var pad :- NewPad(address);
        match site.action
        case None => Ok(Cleanup(pad))
        case Some(action) =>
          var kind :- FirstKind(lsda, action);
          match kind
          case Cleanup => Ok(Cleanup(pad))
          case Catch(_) => Ok(Catch(pad))
          case Filter(_) => Ok(Filter(pad))
  }

  /** The pad comes from the one call site that covers the counter, and its kind from the sign of one discriminator. */
  lemma ScanIs(lsda: T.Lsda, pc: Word, site: T.Site, index: SWord)
    requires T.SiteAt(lsda, pc) == Ok(Some(site)) && site.landing.Some? && site.action.Some?
    requires T.ChainStart(lsda, site.action.value).Ok?
    requires var start := T.ChainStart(lsda, site.action.value).value;
             Sleb(lsda.bytes[start..]).Ok? && Sleb(lsda.bytes[start..]).value.1 == index
             && T.Record(lsda.bytes, lsda.actionOffset, lsda.bytes[start..]).Ok?
    ensures site.landing.value > 0
    ensures Scan(lsda, pc) == Ok(if index == 0 then Cleanup(site.landing.value)
                                 else if index > 0 then Catch(site.landing.value) else Filter(site.landing.value))
  {
    hide T.SiteAt, Sleb, T.ChainStart;
    T.FoundLandingNotZero(lsda, pc);
    FirstOfChain(lsda, site.action.value);
  }

  lemma FirstOfChain(lsda: T.Lsda, action: NonZero)
    requires T.ChainStart(lsda, action).Ok?
    ensures var items := T.Chain(lsda, action).value;
            var input := lsda.bytes[T.ChainStart(lsda, action).value..];
            items != []
            && match T.Record(lsda.bytes, lsda.actionOffset, input)
               case Ok((kind, _)) => items[0] == Ok(kind)
               case Err(e) => items[0] == Err(e)
  {
    hide T.Record, T.ChainStart;
  }

  /** The classification in every case: the site, its landing pad, its action, and the record there. */
  lemma ScanMeans(lsda: T.Lsda, pc: Word)
    ensures match T.SiteAt(lsda, pc)
            case Err(e) => Scan(lsda, pc) == Err(Parse(e))
            case Ok(None) => Scan(lsda, pc) == Ok(Terminate)
            case Ok(Some(site)) =>
              if site.landing.None? then Scan(lsda, pc) == Ok(NoPad)
              else if site.action.None? then
                site.landing.value > 0 && Scan(lsda, pc) == Ok(Cleanup(site.landing.value))
              else
                match T.ChainStart(lsda, site.action.value)
                case Err(e) => Scan(lsda, pc) == Err(Parse(e))
                case Ok(start) =>
                  match T.Record(lsda.bytes, lsda.actionOffset, lsda.bytes[start..])
                  case Err(e) => Scan(lsda, pc) == Err(Parse(e))
                  case Ok((kind, _)) =>
                    site.landing.value > 0
                    && Scan(lsda, pc) == Ok(if kind.Cleanup? then Cleanup(site.landing.value)
                                            else if kind.Catch? then Catch(site.landing.value)
                                            else Filter(site.landing.value))
  {
    hide T.SiteAt, T.ChainStart, T.Record;
    T.FoundLandingNotZero(lsda, pc);
    var found := T.SiteAt(lsda, pc);
    if found.Ok? && found.value.Some? && found.value.value.action.Some? {
      var action := found.value.value.action.value;
      if T.ChainStart(lsda, action).Ok? { FirstOfChain(lsda, action); }
    }
  }

  /** A chain that can be opened has a first item, and pads are real: two of the three errors never occur. */
  lemma OnlyParseErrors(lsda: T.Lsda, pc: Word)
    ensures Scan(lsda, pc).Err? ==> Scan(lsda, pc).error.Parse?
  {
    hide T.SiteAt, T.ChainStart, T.ChainItems;
    T.FoundLandingNotZero(lsda, pc);
    var found := T.SiteAt(lsda, pc);
    if found.Ok? && found.value.Some? && found.value.value.action.Some? {
      var action := found.value.value.action.value;
      if T.ChainStart(lsda, action).Ok? { FirstOfChain(lsda, action); }
    }
  }

  /** Bytes after the table do not change the classification. */
  lemma ScanTail(lsda: T.Lsda, pc: Word, tail: Bytes)
    requires Scan(lsda, pc).Ok?
    ensures Scan(TailStability.Extend(lsda, tail), pc) == Scan(lsda, pc)
  {
    hide T.SiteItems, T.FindSite, FirstKind;
    TailStability.SitesTail(lsda, tail, lsda.callSites);
    var found := T.SiteAt(lsda, pc).value;
    if found.Some? && found.value.landing.Some? && found.value.action.Some? {
      FirstKindTail(lsda, found.value.action.value, tail);
    }
  }

  lemma FirstKindTail(lsda: T.Lsda, action: NonZero, tail: Bytes)
    requires FirstKind(lsda, action).Ok?
    ensures FirstKind(TailStability.Extend(lsda, tail), action) == FirstKind(lsda, action)
  {
    hide T.Record, T.ChainItems;
    var start := T.ChainStart(lsda, action).value;
    var longer := TailStability.Extend(lsda, tail);
    assert longer.bytes[start..] == lsda.bytes[start..] + tail;
    FirstOfChain(lsda, action);
    FirstOfChain(longer, action);
    TailStability.RecordTail(lsda.bytes, lsda.actionOffset, lsda.bytes[start..], tail);
  }
}
