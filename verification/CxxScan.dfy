/** How the C++ personality reads one call site, with and without asking the runtime's type matcher. */
module CxxScan {
  import opened Words
  import opened Leb128
  import opened Encoding
  import T = Table
  import opened Iterators
  import TailStability

  type NonZero = T.NonZero

  datatype Stage = Search | Handler

  /** A handler clause that only the runtime can decide. */
  datatype Clause = Catch(index: NonZero, target: Target) | Filter(index: NonZero)

  datatype Action = NoPad | Cleanup(pad: NonZero) | Handler(pad: NonZero, selector: SWord) | Terminate

  datatype CxxError = Parse(error: LsdaError) | Landing | Types | Selector
  datatype Failure = Metadata(error: CxxError) | Match(code: int)

  /** The runtime matcher, an arbitrary function of everything it is shown. */
  type Matcher = (Stage, T.Lsda, Clause, SWord) -> Result<bool, int>

  function NewPad(address: Word): Result<NonZero, CxxError> {
    if address == 0 then Err(Landing) else Ok(address)
  }

  function CatchClause(lsda: T.Lsda, index: NonZero): Result<Clause, CxxError> {
    match lsda.types
    case None => Err(Types)
    case Some(types) =>
      match T.GetType(types, lsda, index) case Ok(target) => Ok(Catch(index, target)) case Err(e) => Err(Parse(e))
  }

  /** The value a landing pad receives for the clause: a type index, or a negated filter index. */
  function SelectorOf(clause: Clause): Result<SWord, CxxError> {
    if clause.index >= HALF then Err(Selector)
    else Ok(match clause case Catch(index, _) => index case Filter(index) => -(index as int))
  }

  function Test(m: Matcher, stage: Stage, lsda: T.Lsda, clause: Clause): Result<Option<SWord>, Failure> {
    match SelectorOf(clause)
    case Err(e) => Err(Metadata(e))
    case Ok(selector) =>
      match m(stage, lsda, clause, selector)
      case Err(code) => Err(Match(code))
      case Ok(matched) => Ok(if matched then Some(selector) else None)
  }

  /** What one chain item contributes: nothing, a selected clause, or a failure. */
  function Outcome(m: Matcher, stage: Stage, lsda: T.Lsda, item: T.KindItem): Result<Option<SWord>, Failure> {
    match item
    case Err(e) => Err(Metadata(Parse(e)))
    case Ok(Cleanup) => Ok(None)
    case Ok(Catch(index)) =>
      (match CatchClause(lsda, index)
       case Err(e) => Err(Metadata(e))
       case Ok(clause) => Test(m, stage, lsda, clause))
    case Ok(Filter(index)) => Test(m, stage, lsda, Filter(index))
  }

  // ---- What the two scans mean ----

  /** The first item that ends a scan, or the number of items when none does. */
  function Decided(m: Matcher, stage: Stage, lsda: T.Lsda, items: seq<T.KindItem>): (k: nat)
    ensures k <= |items|
    ensures forall i | 0 <= i < k :: Outcome(m, stage, lsda, items[i]) == Ok(None)
    ensures k < |items| ==> Outcome(m, stage, lsda, items[k]) != Ok(None)
  {
    if items == [] || Outcome(m, stage, lsda, items[0]) != Ok(None) then 0
    else 1 + Decided(m, stage, lsda, items[1..])
  }

  function ScanItems(
    m: Matcher, stage: Stage, lsda: T.Lsda, items: seq<T.KindItem>, pad: NonZero): Result<Action, Failure>
  {
    var k := Decided(m, stage, lsda, items);
    if k == |items| then Ok(if Ok(T.Cleanup) in items then Cleanup(pad) else NoPad)
    else
      match Outcome(m, stage, lsda, items[k])
      case Err(e) => Err(e)
      case Ok(Some(selector)) => Ok(Action.Handler(pad, selector))
      case Ok(None) => assert false; Ok(NoPad)
  }

  /** The first error of a chain, or the number of items when it has none. */
  function FirstError(items: seq<T.KindItem>): (k: nat)
    ensures k <= |items|
    ensures forall i | 0 <= i < k :: items[i].Ok?
    ensures k < |items| ==> items[k].Err?
  {
    if items == [] || items[0].Err? then 0 else 1 + FirstError(items[1..])
  }

  function CleanItems(items: seq<T.KindItem>, pad: NonZero): Result<Action, CxxError> {
    var k := FirstError(items);
    if k < |items| then Err(Parse(items[k].error))
    else Ok(if Ok(T.Cleanup) in items then Cleanup(pad) else NoPad)
  }

  /** What both scans share: the call site, and the actions that need no chain. */
  datatype Front = Done(action: Action) | Items(items: seq<T.KindItem>, pad: NonZero)

  function OpenSite(lsda: T.Lsda, pc: Word): Result<Front, CxxError> {
    match T.SiteAt(lsda, pc)
    case Err(e) => Err(Parse(e))
    case Ok(None) => Ok(Done(Terminate))
    case Ok(Some(site)) =>
      match site.landing
      case None => Ok(Done(NoPad))
      case Some(address) =>
        var pad :- NewPad(address);
        match site.action
        case None => Ok(Done(Cleanup(pad)))
        case Some(action) =>
          match T.Chain(lsda, action) case Err(e) => Err(Parse(e)) case Ok(items) => Ok(Items(items, pad))
  }

  function Scan(m: Matcher, stage: Stage, lsda: T.Lsda, pc: Word): Result<Action, Failure> {
    match OpenSite(lsda, pc)
    case Err(e) => Err(Metadata(e))
    case Ok(Done(action)) => Ok(action)
    case Ok(Items(items, pad)) => ScanItems(m, stage, lsda, items, pad)
  }

  function Clean(lsda: T.Lsda, pc: Word): Result<Action, CxxError> {
    match OpenSite(lsda, pc)
    case Err(e) => Err(e)
    case Ok(Done(action)) => Ok(action)
    case Ok(Items(items, pad)) => CleanItems(items, pad)
  }

  /** What both scans open in every case: the site, its landing pad, and the chain of its action. */
  lemma OpenMeans(lsda: T.Lsda, pc: Word)
    ensures match T.SiteAt(lsda, pc)
            case Err(e) => OpenSite(lsda, pc) == Err(Parse(e))
            case Ok(None) => OpenSite(lsda, pc) == Ok(Done(Terminate))
            case Ok(Some(site)) =>
              if site.landing.None? then OpenSite(lsda, pc) == Ok(Done(NoPad))
              else if site.action.None? then
                site.landing.value > 0 && OpenSite(lsda, pc) == Ok(Done(Cleanup(site.landing.value)))
              else
                match T.Chain(lsda, site.action.value)
                case Err(e) => OpenSite(lsda, pc) == Err(Parse(e))
                case Ok(items) =>
                  site.landing.value > 0 && OpenSite(lsda, pc) == Ok(Items(items, site.landing.value))
  {
    hide T.SiteAt, T.Chain;
    T.FoundLandingNotZero(lsda, pc);
  }

  // ---- The loops of the source ----

  /** Everything up to `i` decided nothing, and what happens at `i` is what the scan answers. */
  lemma ScanItemsAt(m: Matcher, stage: Stage, lsda: T.Lsda, items: seq<T.KindItem>, pad: NonZero, i: nat)
    requires i <= |items|
    requires forall j | 0 <= j < i :: Outcome(m, stage, lsda, items[j]) == Ok(None)
    ensures i == |items| ==>
              ScanItems(m, stage, lsda, items, pad) == Ok(if Ok(T.Cleanup) in items then Cleanup(pad) else NoPad)
    ensures i < |items| ==>
              match Outcome(m, stage, lsda, items[i])
              case Err(e) => ScanItems(m, stage, lsda, items, pad) == Err(e)
              case Ok(Some(selector)) => ScanItems(m, stage, lsda, items, pad) == Ok(Action.Handler(pad, selector))
              case Ok(None) => true
  {
    hide Outcome;
    assert Decided(m, stage, lsda, items) >= i;
  }

  lemma InPrefix<A>(items: seq<A>, i: nat, x: A)
    requires i < |items|
    ensures x in items[..i + 1] <==> x in items[..i] || x == items[i]
  {
    assert items[..i + 1] == items[..i] + [items[i]];
  }

  /** Runs through a fresh chain until a clause is selected, a failure occurs or the chain ends. */
  method ScanChain(
    m: Matcher, stage: Stage, lsda: T.Lsda, start: Word, pad: NonZero) returns (r: Result<Action, Failure>)
    requires start < |lsda.bytes|
    ensures var items := T.ChainItems(lsda.bytes, lsda.actionOffset, Some(lsda.bytes[start..]), |lsda.bytes| + 1);
            r == ScanItems(m, stage, lsda, items, pad)
  {
    var chain := new ChainIterator(lsda, start);
    ghost var items := chain.Items();
    ghost var i: nat := 0;
    var cleanup := false;
    var selected: Option<SWord> := None;
    var failure: Option<Failure> := None;
    assert items[..0] == [] && items[..|items|] == items;
    hide *;
    while true
      invariant i <= |items| && chain.Items() == items[i..]
      invariant forall j | 0 <= j < i :: Outcome(m, stage, lsda, items[j]) == Ok(None)
      invariant cleanup <==> Ok(T.Cleanup) in items[..i]
      invariant selected == None && failure == None
      decreases |items| - i
    {
      ScanItemsAt(m, stage, lsda, items, pad, i);
      var next := chain.Next();
      if next == None {
        break;
      }
      var kind := next.value;
      var outcome := Outcome(m, stage, lsda, kind);
      cleanup := cleanup || kind == Ok(T.Cleanup);
      match outcome {
        case Ok(Some(selector)) => selected := Some(selector); break;
        case Ok(None) =>
        case Err(error) => failure := Some(error); break;
      }
      InPrefix(items, i, Ok(T.Cleanup));
      i := i + 1;
    }
    match (failure, selected) {
      case (Some(error), _) => r := Err(error);
      case (None, Some(selector)) => r := Ok(Action.Handler(pad, selector));
      case (None, None) => r := Ok(if cleanup then Action.Cleanup(pad) else NoPad);
    }
  }

  lemma CleanItemsAt(items: seq<T.KindItem>, pad: NonZero, i: nat)
    requires i <= |items| && forall j | 0 <= j < i :: items[j].Ok?
    ensures i == |items| ==> CleanItems(items, pad) == Ok(if Ok(T.Cleanup) in items then Cleanup(pad) else NoPad)
    ensures i < |items| && items[i].Err? ==> CleanItems(items, pad) == Err(Parse(items[i].error))
  {
    assert FirstError(items) >= i;
  }

  /** Runs through the whole chain, looking for cleanup records only. */
  method CleanChain(lsda: T.Lsda, start: Word, pad: NonZero) returns (r: Result<Action, CxxError>)
    requires start < |lsda.bytes|
    ensures var items := T.ChainItems(lsda.bytes, lsda.actionOffset, Some(lsda.bytes[start..]), |lsda.bytes| + 1);
            r == CleanItems(items, pad)
  {
    var chain := new ChainIterator(lsda, start);
    ghost var items := chain.Items();
    ghost var i: nat := 0;
    var cleanup := false;
    assert items[..0] == [] && items[..|items|] == items;
    hide *;
    while true
      invariant i <= |items| && chain.Items() == items[i..]
      invariant forall j | 0 <= j < i :: items[j].Ok?
      invariant cleanup <==> Ok(T.Cleanup) in items[..i]
      decreases |items| - i
    {
      CleanItemsAt(items, pad, i);
      var next := chain.Next();
      match next {
        case None =>
          return Ok(if cleanup then Action.Cleanup(pad) else NoPad);
        case Some(Err(error)) =>
          return Err(Parse(error));
        case Some(Ok(kind)) =>
          cleanup := cleanup || kind == T.Cleanup;
          InPrefix(items, i, Ok(T.Cleanup));
          i := i + 1;
      }
    }
  }

  /** The scan of one call site that asks the matcher. */
  method ScanSite(m: Matcher, stage: Stage, lsda: T.Lsda, pc: Word) returns (r: Result<Action, Failure>)
    ensures r == Scan(m, stage, lsda, pc)
  {
    hide ScanItems, T.ChainItems, T.SiteAt;
    var found := FindSiteAt(lsda, pc);
    match found {
      case Err(error) => r := Err(Metadata(Parse(error)));
      case Ok(None) => r := Ok(Terminate);
      case Ok(Some(site)) =>
        match site.landing {
          case None => r := Ok(NoPad);
          case Some(address) =>
            match (NewPad(address), site.action) {
              case (Err(error), _) => r := Err(Metadata(error));
              case (Ok(pad), None) => r := Ok(Action.Cleanup(pad));
              case (Ok(pad), Some(action)) =>
                match T.ChainStart(lsda, action) {
                  case Err(error) => r := Err(Metadata(Parse(error)));
                  case Ok(start) => r := ScanChain(m, stage, lsda, start, pad);
                }
            }
        }
    }
  }

  /** The scan of one call site that looks for cleanup work only. */
  method CleanSite(lsda: T.Lsda, pc: Word) returns (r: Result<Action, CxxError>)
    ensures r == Clean(lsda, pc)
  {
    hide CleanItems, T.ChainItems, T.SiteAt;
    var found := FindSiteAt(lsda, pc);
    match found {
      case Err(error) => r := Err(Parse(error));
      case Ok(None) => r := Ok(Terminate);
      case Ok(Some(site)) =>
        match site.landing {
          case None => r := Ok(NoPad);
          case Some(address) =>
            match (NewPad(address), site.action) {
              case (Err(error), _) => r := Err(error);
              case (Ok(pad), None) => r := Ok(Action.Cleanup(pad));
              case (Ok(pad), Some(action)) =>
                match T.ChainStart(lsda, action) {
                  case Err(error) => r := Err(Parse(error));
                  case Ok(start) => r := CleanChain(lsda, start, pad);
                }
            }
        }
    }
  }

  // ---- What the phases may rely on ----

  /** A scan that succeeds without selecting a clause agrees with the scan for cleanup work. */
  lemma CleanAgrees(m: Matcher, stage: Stage, lsda: T.Lsda, pc: Word)
    requires Scan(m, stage, lsda, pc).Ok? && !Scan(m, stage, lsda, pc).value.Handler?
    ensures Clean(lsda, pc) == Ok(Scan(m, stage, lsda, pc).value)
  {
    hide OpenSite;
    match OpenSite(lsda, pc)
    case Ok(Items(items, pad)) =>
      assert Decided(m, stage, lsda, items) == |items|;
      assert forall i | 0 <= i < |items| :: items[i].Ok?;
    case _ =>
  }

  function PadOf(action: Action): Option<NonZero> {
    match action case Cleanup(pad) => Some(pad) case Handler(pad, _) => Some(pad) case _ => None
  }

  /** Where both scans name a pad, it is the pad of the one call site. */
  lemma SamePad(m: Matcher, stage: Stage, lsda: T.Lsda, pc: Word)
    requires Scan(m, stage, lsda, pc).Ok? && Clean(lsda, pc).Ok?
    ensures var a, b := PadOf(Scan(m, stage, lsda, pc).value), PadOf(Clean(lsda, pc).value);
            a.Some? && b.Some? ==> a == b
  {
    hide OpenSite, Outcome;
  }

  /** The clause an item stands for, once its type entry is decoded. */
  function ClauseOf(lsda: T.Lsda, item: T.KindItem): Option<Clause> {
    match item
    case Ok(Catch(index)) => (match CatchClause(lsda, index) case Ok(c) => Some(c) case Err(_) => None)
    case Ok(Filter(index)) => Some(Filter(index))
    case _ => None
  }

  /** The matcher accepts the item's clause, whose selector is `selector`. */
  predicate Selects(m: Matcher, stage: Stage, lsda: T.Lsda, item: T.KindItem, selector: SWord) {
    match ClauseOf(lsda, item)
    case None => false
    case Some(clause) => SelectorOf(clause) == Ok(selector) && m(stage, lsda, clause, selector) == Ok(true)
  }

  /** The matcher rejects the item's clause, or there is nothing to ask. */
  predicate Rejects(m: Matcher, stage: Stage, lsda: T.Lsda, item: T.KindItem) {
    item == Ok(T.Cleanup)
    || (match ClauseOf(lsda, item)
        case None => false
        case Some(clause) => SelectorOf(clause).Ok? && m(stage, lsda, clause, SelectorOf(clause).value) == Ok(false))
  }

  lemma OutcomeIs(m: Matcher, stage: Stage, lsda: T.Lsda, item: T.KindItem, selector: SWord)
    ensures Outcome(m, stage, lsda, item) == Ok(None) <==> Rejects(m, stage, lsda, item)
    ensures Outcome(m, stage, lsda, item) == Ok(Some(selector)) <==> Selects(m, stage, lsda, item, selector)
  {
    hide CatchClause;
  }

  /** Item `k` is the first whose clause matches, and every clause in front of it was asked about and rejected. */
  predicate FirstMatch(m: Matcher, stage: Stage, lsda: T.Lsda, items: seq<T.KindItem>, k: nat, selector: SWord) {
    && k < |items| && Selects(m, stage, lsda, items[k], selector)
    && forall i | 0 <= i < k :: Rejects(m, stage, lsda, items[i])
  }

  lemma FirstMatchIff(m: Matcher, stage: Stage, lsda: T.Lsda, items: seq<T.KindItem>, pad: NonZero, selector: SWord)
    ensures ScanItems(m, stage, lsda, items, pad) == Ok(Action.Handler(pad, selector)) <==>
            exists k: nat :: FirstMatch(m, stage, lsda, items, k, selector)
  {
    hide Outcome, Selects, Rejects;
    var d := Decided(m, stage, lsda, items);
    forall i | 0 <= i < d ensures Rejects(m, stage, lsda, items[i]) {
      OutcomeIs(m, stage, lsda, items[i], selector);
    }
    if ScanItems(m, stage, lsda, items, pad) == Ok(Action.Handler(pad, selector)) {
      OutcomeIs(m, stage, lsda, items[d], selector);
      assert FirstMatch(m, stage, lsda, items, d, selector);
    }
    if k: nat :| FirstMatch(m, stage, lsda, items, k, selector) {
      forall i | 0 <= i < k ensures Outcome(m, stage, lsda, items[i]) == Ok(None) {
        OutcomeIs(m, stage, lsda, items[i], selector);
      }
      OutcomeIs(m, stage, lsda, items[k], selector);
      ScanItemsAt(m, stage, lsda, items, pad, k);
    }
  }

  /** The clause has no selector, or the matcher fails on it. */
  predicate Refuses(m: Matcher, stage: Stage, lsda: T.Lsda, clause: Clause, failure: Failure) {
    match SelectorOf(clause)
    case Err(e) => failure == Metadata(e)
    case Ok(selector) =>
      match m(stage, lsda, clause, selector) case Err(code) => failure == Match(code) case Ok(_) => false
  }

  /** The item ends a scan with the failure: the chain or its type entry cannot be read, or its clause is refused. */
  predicate Breaks(m: Matcher, stage: Stage, lsda: T.Lsda, item: T.KindItem, failure: Failure) {
    match item
    case Err(e) => failure == Metadata(Parse(e))
    case Ok(Cleanup) => false
    case Ok(Catch(index)) =>
      (match CatchClause(lsda, index)
       case Err(e) => failure == Metadata(e)
       case Ok(clause) => Refuses(m, stage, lsda, clause, failure))
    case Ok(Filter(index)) => Refuses(m, stage, lsda, Filter(index), failure)
  }

  lemma OutcomeFails(m: Matcher, stage: Stage, lsda: T.Lsda, item: T.KindItem, failure: Failure)
    ensures Outcome(m, stage, lsda, item) == Err(failure) <==> Breaks(m, stage, lsda, item, failure)
  {
    hide CatchClause;
  }

  /** Item `k` ends the scan with the failure, and every clause in front of it was asked about and rejected. */
  predicate FirstFailure(m: Matcher, stage: Stage, lsda: T.Lsda, items: seq<T.KindItem>, k: nat, failure: Failure) {
    && k < |items| && Breaks(m, stage, lsda, items[k], failure)
    && forall i | 0 <= i < k :: Rejects(m, stage, lsda, items[i])
  }

  predicate AllRejected(m: Matcher, stage: Stage, lsda: T.Lsda, items: seq<T.KindItem>) {
    forall i | 0 <= i < |items| :: Rejects(m, stage, lsda, items[i])
  }

  /** A chain fails with exactly the failure of its first item that breaks behind rejected ones. */
  lemma FailureIff(
    m: Matcher, stage: Stage, lsda: T.Lsda, items: seq<T.KindItem>, pad: NonZero, failure: Failure)
    ensures ScanItems(m, stage, lsda, items, pad) == Err(failure) <==>
            exists k: nat :: FirstFailure(m, stage, lsda, items, k, failure)
  {
    hide Outcome, Breaks, Rejects;
    var d := Decided(m, stage, lsda, items);
    forall i | 0 <= i < d ensures Rejects(m, stage, lsda, items[i]) {
      OutcomeIs(m, stage, lsda, items[i], 0);
    }
    if ScanItems(m, stage, lsda, items, pad) == Err(failure) {
      OutcomeFails(m, stage, lsda, items[d], failure);
      assert FirstFailure(m, stage, lsda, items, d, failure);
    }
    if k: nat :| FirstFailure(m, stage, lsda, items, k, failure) {
      forall i | 0 <= i < k ensures Outcome(m, stage, lsda, items[i]) == Ok(None) {
        OutcomeIs(m, stage, lsda, items[i], 0);
      }
      OutcomeFails(m, stage, lsda, items[k], failure);
      ScanItemsAt(m, stage, lsda, items, pad, k);
    }
  }

  /** A chain selects nothing if and only if all its clauses are rejected, and then only its cleanup records count. */
  lemma NothingIff(m: Matcher, stage: Stage, lsda: T.Lsda, items: seq<T.KindItem>, pad: NonZero)
    ensures var r := ScanItems(m, stage, lsda, items, pad);
            && (r.Ok? && !r.value.Handler? <==> AllRejected(m, stage, lsda, items))
            && (AllRejected(m, stage, lsda, items) ==> r == Ok(if Ok(T.Cleanup) in items then Cleanup(pad) else NoPad))
  {
    hide Outcome, Rejects;
    var d := Decided(m, stage, lsda, items);
    forall i | 0 <= i < |items|
      ensures Outcome(m, stage, lsda, items[i]) == Ok(None) <==> Rejects(m, stage, lsda, items[i])
    {
      OutcomeIs(m, stage, lsda, items[i], 0);
    }
    if AllRejected(m, stage, lsda, items) { ScanItemsAt(m, stage, lsda, items, pad, |items|); }
  }

  /** A scan selects a handler if and only if the chain of the call site has a first matching clause. */
  lemma HandlerIsFirstMatch(m: Matcher, stage: Stage, lsda: T.Lsda, pc: Word, pad: NonZero, selector: SWord)
    ensures Scan(m, stage, lsda, pc) == Ok(Action.Handler(pad, selector)) <==>
            match OpenSite(lsda, pc)
            case Ok(Items(items, p)) => p == pad && exists k: nat :: FirstMatch(m, stage, lsda, items, k, selector)
            case _ => false
  {
    hide FirstMatch;
    match OpenSite(lsda, pc)
    case Ok(Items(items, p)) =>
      hide OpenSite;
      FirstMatchIff(m, stage, lsda, items, pad, selector);
      PadComesFromSite(m, stage, lsda, items, p);
    case _ =>
      NoHandlerWithoutChain(lsda, pc);
  }

  lemma PadComesFromSite(m: Matcher, stage: Stage, lsda: T.Lsda, items: seq<T.KindItem>, pad: NonZero)
    ensures match ScanItems(m, stage, lsda, items, pad)
            case Ok(Handler(p, _)) => p == pad
            case _ => true
  {
  }

  lemma NoHandlerWithoutChain(lsda: T.Lsda, pc: Word)
    ensures match OpenSite(lsda, pc) case Ok(Done(action)) => !action.Handler? case _ => true
  {
    hide T.SiteAt, T.Chain;
  }

  // ---- Asking again ----

  /**
   * The handler stage learns at every item up to the one that ended the search what the search learned there.
   * The search did not ask about the clauses behind that one, and nothing is said of them.
   */
  predicate Repeats(m: Matcher, lsda: T.Lsda, items: seq<T.KindItem>) {
    forall i | 0 <= i < |items| && i <= Decided(m, Search, lsda, items) ::
      Outcome(m, Stage.Handler, lsda, items[i]) == Outcome(m, Search, lsda, items[i])
  }

  /** The matcher repeats the answers that it gave for the call site. */
  predicate RepeatsAt(m: Matcher, lsda: T.Lsda, pc: Word) {
    match OpenSite(lsda, pc) case Ok(Items(items, _)) => Repeats(m, lsda, items) case _ => true
  }

  /** A matcher that repeats the answers it gave selects the same handler when it is asked again. */
  lemma HandlerRepeats(m: Matcher, lsda: T.Lsda, pc: Word)
    requires RepeatsAt(m, lsda, pc)
    ensures Scan(m, Stage.Handler, lsda, pc) == Scan(m, Search, lsda, pc)
  {
    hide OpenSite;
    match OpenSite(lsda, pc)
    case Ok(Items(items, pad)) =>
      hide Outcome;
      ScanItemsAt(m, Stage.Handler, lsda, items, pad, Decided(m, Search, lsda, items));
    case _ =>
  }

  /** Within one table the selector tells which clause it stands for. */
  lemma SelectorDetermines(lsda: T.Lsda, a: T.KindItem, b: T.KindItem, selector: SWord)
    requires ClauseOf(lsda, a).Some? && ClauseOf(lsda, b).Some?
    requires SelectorOf(ClauseOf(lsda, a).value) == SelectorOf(ClauseOf(lsda, b).value) == Ok(selector)
    ensures ClauseOf(lsda, a) == ClauseOf(lsda, b)
  {
    hide T.GetType;
  }

  /**
   * A matcher that only remembers the selector of the search, and accepts that one in the handler stage, repeats
   * its answers in this sense.
   */
  lemma CacheRepeats(m: Matcher, lsda: T.Lsda, pc: Word, cached: SWord)
    requires Scan(m, Search, lsda, pc).Ok? && Scan(m, Search, lsda, pc).value.Handler?
    requires cached == Scan(m, Search, lsda, pc).value.selector
    requires forall clause, selector :: m(Stage.Handler, lsda, clause, selector) == Ok(selector == cached)
    ensures RepeatsAt(m, lsda, pc)
  {
    hide T.SiteAt, T.Chain, CatchClause, Selects, Rejects;
    match OpenSite(lsda, pc)
    case Ok(Items(items, pad)) =>
      hide OpenSite;
      var d := Decided(m, Search, lsda, items);
      assert d < |items| && Outcome(m, Search, lsda, items[d]) == Ok(Some(cached));
      forall i | 0 <= i <= d ensures Outcome(m, Stage.Handler, lsda, items[i]) == Outcome(m, Search, lsda, items[i]) {
        CacheAnswers(m, lsda, items[i], items[d], cached);
      }
    case _ =>
  }

  lemma CacheAnswers(m: Matcher, lsda: T.Lsda, item: T.KindItem, last: T.KindItem, cached: SWord)
    requires Outcome(m, Search, lsda, last) == Ok(Some(cached))
    requires item == last || Outcome(m, Search, lsda, item) == Ok(None)
    requires forall clause, selector :: m(Stage.Handler, lsda, clause, selector) == Ok(selector == cached)
    ensures Outcome(m, Stage.Handler, lsda, item) == Outcome(m, Search, lsda, item)
  {
    hide CatchClause;
    var a, b := ClauseOf(lsda, item), ClauseOf(lsda, last);
    if a.Some? && SelectorOf(a.value) == Ok(cached) { SelectorDetermines(lsda, item, last, cached); }
  }

  // ---- Discriminators and pads ----

  /** The signed discriminator of a record is the selector its landing pad receives. */
  lemma SelectorIsDiscriminator(index: SWord, target: Target)
    requires index != 0
    ensures var clause := match T.NewKind(index).value
                          case Catch(i) => Clause.Catch(i, target)
                          case Filter(i) => Clause.Filter(i);
            SelectorOf(clause) == if index == -HALF then Err(Selector) else Ok(index)
  {
  }

  /** No call site the parser finds has a zero landing pad, so neither scan reports one. */
  lemma PadsAreReal(m: Matcher, stage: Stage, lsda: T.Lsda, pc: Word)
    ensures Clean(lsda, pc) != Err(Landing)
    ensures Scan(m, stage, lsda, pc) != Err(Metadata(Landing))
  {
    T.FoundLandingNotZero(lsda, pc);
    hide T.SiteAt, T.Chain, ScanItems, CleanItems;
    match OpenSite(lsda, pc)
    case Ok(Items(items, pad)) => ScanNeverLanding(m, stage, lsda, items, pad);
    case _ =>
  }

  lemma ScanNeverLanding(m: Matcher, stage: Stage, lsda: T.Lsda, items: seq<T.KindItem>, pad: NonZero)
    ensures CleanItems(items, pad) != Err(Landing)
    ensures ScanItems(m, stage, lsda, items, pad) != Err(Metadata(Landing))
  {
    hide T.GetType;
  }

  /** Bytes after the table do not change what the cleanup scan finds. */
  lemma CleanTail(lsda: T.Lsda, pc: Word, tail: Bytes)
    requires Clean(lsda, pc).Ok?
    ensures Clean(TailStability.Extend(lsda, tail), pc) == Clean(lsda, pc)
  {
    hide T.SiteItems, T.Chain, T.FindSite, TailStability.NoError;
    TailStability.SitesTail(lsda, tail, lsda.callSites);
    var found := T.SiteAt(lsda, pc).value;
    if found.Some? && found.value.landing.Some? && found.value.action.Some? {
      var action := found.value.action.value;
      AllOk(T.Chain(lsda, action).value);
      TailStability.ChainTail(lsda, action, tail);
    }
  }

  lemma AllOk(items: seq<T.KindItem>)
    requires FirstError(items) == |items|
    ensures TailStability.NoError(items)
  {
  }

  // ---- The asking scan with more bytes behind the table ----

  /** The matcher's answers do not depend on what stands behind the table. */
  ghost predicate IgnoresTail(m: Matcher, lsda: T.Lsda, tail: Bytes) {
    forall stage, clause, selector ::
      m(stage, TailStability.Extend(lsda, tail), clause, selector) == m(stage, lsda, clause, selector)
  }

  lemma OutcomeTail(m: Matcher, stage: Stage, lsda: T.Lsda, item: T.KindItem, tail: Bytes)
    requires IgnoresTail(m, lsda, tail) && Outcome(m, stage, lsda, item).Ok?
    ensures Outcome(m, stage, TailStability.Extend(lsda, tail), item) == Outcome(m, stage, lsda, item)
  {
    hide T.GetType;
    match item
    case Ok(Catch(index)) => TailStability.TypeTail(lsda.types.value, lsda, index, tail);
    case _ =>
  }

  /** Items that agree up to the one that ends the scan give the same result. */
  lemma SameUpToDecision(
    m: Matcher, stage: Stage, lsda: T.Lsda, items: seq<T.KindItem>, longer: T.Lsda, more: seq<T.KindItem>, pad: NonZero)
    requires var d := Decided(m, stage, lsda, items);
             && (d == |items| ==> more == items) && (d < |items| ==> d < |more| && more[..d + 1] == items[..d + 1])
             && forall i | 0 <= i < |items| && i <= d ::
                Outcome(m, stage, longer, items[i]) == Outcome(m, stage, lsda, items[i])
    requires ScanItems(m, stage, lsda, items, pad).Ok?
    ensures ScanItems(m, stage, longer, more, pad) == ScanItems(m, stage, lsda, items, pad)
  {
    hide Outcome;
    var d := Decided(m, stage, lsda, items);
    forall i | 0 <= i < |items| && i <= d ensures i < |more| && more[i] == items[i] {
      if d < |items| { assert more[i] == more[..d + 1][i] && items[i] == items[..d + 1][i]; }
    }
    ScanItemsAt(m, stage, longer, more, pad, d);
  }

  /** An asking scan that succeeds is the same with any bytes behind the table, even when a later record is bad. */
  lemma ScanTail(m: Matcher, stage: Stage, lsda: T.Lsda, pc: Word, tail: Bytes)
    requires IgnoresTail(m, lsda, tail) && Scan(m, stage, lsda, pc).Ok?
    ensures Scan(m, stage, TailStability.Extend(lsda, tail), pc) == Scan(m, stage, lsda, pc)
  {
    hide T.SiteItems, T.Chain, T.FindSite, TailStability.NoError, Outcome, ScanItems, IgnoresTail;
    TailStability.SitesTail(lsda, tail, lsda.callSites);
    var found := T.SiteAt(lsda, pc).value;
    if found.Some? && found.value.landing.Some? && found.value.action.Some? {
      var longer, action := TailStability.Extend(lsda, tail), found.value.action.value;
      var items := T.Chain(lsda, action).value;
      DecidedTail(m, stage, lsda, action, tail, found.value.landing.value);
      SameUpToDecision(m, stage, lsda, items, longer, T.Chain(longer, action).value, found.value.landing.value);
    }
  }

  lemma DecidedTail(m: Matcher, stage: Stage, lsda: T.Lsda, action: NonZero, tail: Bytes, pad: NonZero)
    requires IgnoresTail(m, lsda, tail) && T.Chain(lsda, action).Ok?
    requires ScanItems(m, stage, lsda, T.Chain(lsda, action).value, pad).Ok?
    ensures var longer := TailStability.Extend(lsda, tail);
            var items, more := T.Chain(lsda, action).value, T.Chain(longer, action);
            var d := Decided(m, stage, lsda, items);
            && more.Ok?
            && (d == |items| ==> more.value == items)
            && (d < |items| ==> d < |more.value| && more.value[..d + 1] == items[..d + 1])
            && forall i | 0 <= i < |items| && i <= d ::
               Outcome(m, stage, longer, items[i]) == Outcome(m, stage, lsda, items[i])
  {
    hide T.Chain, IgnoresTail, Outcome;
    var items := T.Chain(lsda, action).value;
    var d := Decided(m, stage, lsda, items);
    forall i | 0 <= i < |items| && i <= d
      ensures items[i].Ok?
      ensures Outcome(m, stage, TailStability.Extend(lsda, tail), items[i]) == Outcome(m, stage, lsda, items[i])
    {
      OutcomeTail(m, stage, lsda, items[i], tail);
      ItemOk(m, stage, lsda, items[i]);
    }
    TailStability.ChainPrefixTail(lsda, action, tail, if d < |items| then d + 1 else d);
  }

  lemma ItemOk(m: Matcher, stage: Stage, lsda: T.Lsda, item: T.KindItem)
    ensures Outcome(m, stage, lsda, item).Ok? ==> item.Ok?
  {
  }
}
