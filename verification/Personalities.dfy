/** The Rust and C++ personality policies over one bounded source of tables. */
module Personalities {
  import opened Words
  import opened Leb128
  import opened Encoding
  import opened Protocol
  import Rust = RustScan
  import Cxx = CxxScan

  /** Readable bytes at an address. */
  datatype Slice = Slice(address: Word, bytes: Bytes)

  /** The live tables of a process: bytes for a frame, and the optional bases of its image. */
  datatype Source = Source(
    bytes: View -> Result<Option<Slice>, ()>,
    text: View -> Option<Word>,
    data: View -> Option<Word>)

  /** Bounds and parses the table attached to one frame; None when the frame has no table. */
  function LsdaOf(source: Source, view: View): Result<Option<T.Lsda>, ()> {
    match (view.lsda, source.bytes(view))
    case (None, Ok(None)) => Ok(None)
    case (Some(origin), Ok(Some(slice))) =>
      if origin != slice.address then Err(())
      else
        var bases := Bases(origin, view.start, source.text(view), source.data(view));
        (match T.NewLsda(slice.bytes, bases, Little) case Ok(lsda) => Ok(Some(lsda)) case Err(_) => Err(()))
    case _ => Err(())
  }

  // ---- Rust ----

  function RustAction(source: Source, view: View): Result<Rust.Action, ()> {
    var lsda :- LsdaOf(source, view);
    match lsda
    case None => Ok(Rust.NoPad)
    case Some(lsda) => match Rust.Scan(lsda, view.Site()) case Ok(action) => Ok(action) case Err(_) => Err(())
  }

  function RustSearch(source: Source, view: View): SearchDecision {
    match RustAction(source, view)
    case Ok(NoPad) => SearchDecision.Continue
    case Ok(Cleanup(_)) => SearchDecision.Continue
    case Ok(Catch(_)) => HandlerFound
    case Ok(Filter(_)) => HandlerFound
    case _ => SearchDecision.Fatal
  }

  function RustCleanup(source: Source, view: View, forced: bool): CleanupDecision {
    match RustAction(source, view)
    case Ok(NoPad) => CleanupDecision.Continue
    case Ok(Filter(pad)) => if forced then CleanupDecision.Continue else CleanupDecision.Install(pad, 0)
    case Ok(Cleanup(pad)) => CleanupDecision.Install(pad, 0)
    case Ok(Catch(pad)) => CleanupDecision.Install(pad, 0)
    case _ => CleanupDecision.Fatal
  }

  function RustHandler(source: Source, view: View): HandlerDecision {
    match RustAction(source, view)
    case Ok(Catch(pad)) => HandlerDecision.Install(pad, 0)
    case Ok(Filter(pad)) => HandlerDecision.Install(pad, 0)
    case _ => HandlerDecision.Fatal
  }

  function RustPolicy(source: Source): Policy {
    Policy((view: View, exception: NonZero, class_: Word) => RustSearch(source, view),
           (view: View, exception: NonZero, class_: Word, forced: bool) => RustCleanup(source, view, forced),
           (view: View, exception: NonZero, class_: Word) => RustHandler(source, view))
  }

  // ---- C++ ----

  /** The runtime matcher for one exception. */
  type Runtime = (NonZero, Word) -> Cxx.Matcher

  function CxxSearch(source: Source, m: Cxx.Matcher, view: View): SearchDecision {
    match LsdaOf(source, view)
    case Ok(None) => SearchDecision.Continue
    case Err(_) => SearchDecision.Fatal
    case Ok(Some(lsda)) =>
      match Cxx.Scan(m, Cxx.Stage.Search, lsda, view.Site())
      case Ok(NoPad) => SearchDecision.Continue
      case Ok(Cleanup(_)) => SearchDecision.Continue
      case Ok(Handler(_, _)) => HandlerFound
      case _ => SearchDecision.Fatal
  }

  function CxxCleanup(source: Source, view: View): CleanupDecision {
    match LsdaOf(source, view)
    case Ok(None) => CleanupDecision.Continue
    case Err(_) => CleanupDecision.Fatal
    case Ok(Some(lsda)) =>
      match Cxx.Clean(lsda, view.Site())
      case Ok(NoPad) => CleanupDecision.Continue
      case Ok(Cleanup(pad)) => CleanupDecision.Install(pad, 0)
      case _ => CleanupDecision.Fatal
  }

  function CxxHandler(source: Source, m: Cxx.Matcher, view: View): HandlerDecision {
    match LsdaOf(source, view)
    case Ok(Some(lsda)) =>
      (match Cxx.Scan(m, Cxx.Stage.Handler, lsda, view.Site())
       case Ok(Handler(pad, selector)) => HandlerDecision.Install(pad, selector)
       case _ => HandlerDecision.Fatal)
    case _ => HandlerDecision.Fatal
  }

  function CxxPolicy(source: Source, runtime: Runtime): Policy {
    Policy((view: View, exception: NonZero, class_: Word) => CxxSearch(source, runtime(exception, class_), view),
           (view: View, exception: NonZero, class_: Word, forced: bool) => CxxCleanup(source, view),
           (view: View, exception: NonZero, class_: Word) => CxxHandler(source, runtime(exception, class_), view))
  }

  // ---- What the decisions mean ----

  /** The table of a frame is the one at its address, parsed with the bases of the frame. */
  lemma LsdaMeans(source: Source, view: View)
    ensures LsdaOf(source, view) == Ok(None) <==> view.lsda == None && source.bytes(view) == Ok(None)
    ensures forall lsda :: LsdaOf(source, view) == Ok(Some(lsda)) <==>
              && view.lsda.Some? && source.bytes(view).Ok? && source.bytes(view).value.Some?
              && var (origin, slice) := (view.lsda.value, source.bytes(view).value.value);
                 && slice.address == origin
                 && T.NewLsda(slice.bytes, Bases(origin, view.start, source.text(view), source.data(view)), Little)
                    == Ok(lsda)
  {
    hide T.NewLsda;
  }

  /** The table of a Rust frame classifies its call site as the action. */
  predicate RustScans(source: Source, view: View, action: Rust.Action) {
    match LsdaOf(source, view)
    case Ok(Some(lsda)) => Rust.Scan(lsda, view.Site()) == Ok(action)
    case _ => false
  }

  /** The Rust phase table, each decision by the classification of the call site; all else is fatal. */
  lemma RustMeans(source: Source, view: View, exception: NonZero, class_: Word)
    ensures var d := RustPolicy(source).search(view, exception, class_);
            && (d == HandlerFound <==>
                exists pad :: RustScans(source, view, Rust.Catch(pad)) || RustScans(source, view, Rust.Filter(pad)))
            && (d == SearchDecision.Continue <==>
                || LsdaOf(source, view) == Ok(None) || RustScans(source, view, Rust.NoPad)
                || exists pad :: RustScans(source, view, Rust.Cleanup(pad)))
    ensures forall forced, pad, selector ::
              RustPolicy(source).cleanup(view, exception, class_, forced) == CleanupDecision.Install(pad, selector) <==>
              && selector == 0
              && (|| RustScans(source, view, Rust.Cleanup(pad)) || RustScans(source, view, Rust.Catch(pad))
                  || (!forced && RustScans(source, view, Rust.Filter(pad))))
    ensures forall forced ::
              RustPolicy(source).cleanup(view, exception, class_, forced) == CleanupDecision.Continue <==>
              || LsdaOf(source, view) == Ok(None) || RustScans(source, view, Rust.NoPad)
              || (forced && exists pad :: RustScans(source, view, Rust.Filter(pad)))
    ensures forall pad, selector ::
              RustPolicy(source).handler(view, exception, class_) == HandlerDecision.Install(pad, selector) <==>
              && selector == 0
              && (RustScans(source, view, Rust.Catch(pad)) || RustScans(source, view, Rust.Filter(pad)))
  {
    hide LsdaOf, Rust.Scan;
    if LsdaOf(source, view).Ok? && LsdaOf(source, view).value.Some? {
      var scanned := Rust.Scan(LsdaOf(source, view).value.value, view.Site());
      if scanned.Ok? { assert RustScans(source, view, scanned.value); }
    }
  }

  /** The table of a C++ frame gives the action to the scan that asks the matcher. */
  predicate CxxScans(source: Source, m: Cxx.Matcher, stage: Cxx.Stage, view: View, action: Cxx.Action) {
    match LsdaOf(source, view)
    case Ok(Some(lsda)) => Cxx.Scan(m, stage, lsda, view.Site()) == Ok(action)
    case _ => false
  }

  /** The table of a C++ frame gives the action to the cleanup scan. */
  predicate CxxCleans(source: Source, view: View, action: Cxx.Action) {
    match LsdaOf(source, view)
    case Ok(Some(lsda)) => Cxx.Clean(lsda, view.Site()) == Ok(action)
    case _ => false
  }

  /** The C++ phase table: search and handler by the asking scan, cleanup forced or not by the cleanup scan. */
  lemma CxxMeans(source: Source, runtime: Runtime, view: View, exception: NonZero, class_: Word)
    ensures var m := runtime(exception, class_);
            var d := CxxPolicy(source, runtime).search(view, exception, class_);
            && (d == HandlerFound <==>
                exists pad, selector :: CxxScans(source, m, Cxx.Stage.Search, view, Cxx.Action.Handler(pad, selector)))
            && (d == SearchDecision.Continue <==>
                || LsdaOf(source, view) == Ok(None) || CxxScans(source, m, Cxx.Stage.Search, view, Cxx.NoPad)
                || exists pad :: CxxScans(source, m, Cxx.Stage.Search, view, Cxx.Cleanup(pad)))
    ensures forall forced, pad, selector ::
              CxxPolicy(source, runtime).cleanup(view, exception, class_, forced)
              == CleanupDecision.Install(pad, selector)
              <==> selector == 0 && CxxCleans(source, view, Cxx.Cleanup(pad))
    ensures forall forced ::
              CxxPolicy(source, runtime).cleanup(view, exception, class_, forced) == CleanupDecision.Continue
              <==> LsdaOf(source, view) == Ok(None) || CxxCleans(source, view, Cxx.NoPad)
    ensures var m := runtime(exception, class_);
            forall pad, selector ::
              CxxPolicy(source, runtime).handler(view, exception, class_) == HandlerDecision.Install(pad, selector)
              <==> CxxScans(source, m, Cxx.Stage.Handler, view, Cxx.Action.Handler(pad, selector))
  {
    hide LsdaOf, Cxx.Scan, Cxx.Clean;
    if LsdaOf(source, view).Ok? && LsdaOf(source, view).value.Some? {
      var m := runtime(exception, class_);
      var scanned := Cxx.Scan(m, Cxx.Stage.Search, LsdaOf(source, view).value.value, view.Site());
      if scanned.Ok? { assert CxxScans(source, m, Cxx.Stage.Search, view, scanned.value); }
    }
  }

  // ---- What the search promises about the second phase ----

  /** A frame that let the search pass does not fail its cleanup. */
  predicate CleansAfterPass(policy: Policy, view: View, exception: NonZero, class_: Word) {
    policy.search(view, exception, class_) == SearchDecision.Continue ==>
      policy.cleanup(view, exception, class_, false) != CleanupDecision.Fatal
  }

  /** A frame that claimed the exception installs its handler. */
  predicate HandlesAfterClaim(policy: Policy, view: View, exception: NonZero, class_: Word) {
    policy.search(view, exception, class_) == HandlerFound ==> policy.handler(view, exception, class_).Install?
  }

  lemma RustKeepsPromise(source: Source, view: View, exception: NonZero, class_: Word)
    ensures CleansAfterPass(RustPolicy(source), view, exception, class_)
    ensures HandlesAfterClaim(RustPolicy(source), view, exception, class_)
  {
    hide RustAction;
  }

  /**
   * The phases of a Rust frame name one landing pad: a handler is entered where a normal cleanup of the frame
   * would be. Forced unwinding differs from a normal cleanup exactly at filters, which it passes by.
   */
  lemma RustPads(source: Source, view: View)
    ensures var normal, forced := RustCleanup(source, view, false), RustCleanup(source, view, true);
            && (RustSearch(source, view) == HandlerFound ==>
                  normal.Install? && RustHandler(source, view) == HandlerDecision.Install(normal.pad, normal.selector))
            && (RustHandler(source, view).Install? ==> RustSearch(source, view) == HandlerFound)
            && (forced == normal <==> !(RustAction(source, view).Ok? && RustAction(source, view).value.Filter?))
            && (forced != normal ==> forced.Continue? && RustSearch(source, view) == HandlerFound)
            && (normal.Fatal? <==> RustSearch(source, view) == SearchDecision.Fatal)
  {
    hide RustAction;
  }

  /** The matcher repeats in the handler stage what it answered while this frame was searched. */
  predicate MatcherRepeats(source: Source, m: Cxx.Matcher, view: View) {
    match LsdaOf(source, view) case Ok(Some(lsda)) => Cxx.RepeatsAt(m, lsda, view.Site()) case _ => true
  }

  /** Cleanup needs nothing of the matcher; the handler needs the answers repeated that were given. */
  lemma CxxKeepsPromise(source: Source, runtime: Runtime, view: View, exception: NonZero, class_: Word)
    ensures CleansAfterPass(CxxPolicy(source, runtime), view, exception, class_)
    ensures MatcherRepeats(source, runtime(exception, class_), view) ==>
              HandlesAfterClaim(CxxPolicy(source, runtime), view, exception, class_)
  {
    hide LsdaOf, Cxx.Scan, Cxx.Clean, Cxx.RepeatsAt;
    var m := runtime(exception, class_);
    match LsdaOf(source, view)
    case Ok(Some(lsda)) =>
      if Cxx.RepeatsAt(m, lsda, view.Site()) { Cxx.HandlerRepeats(m, lsda, view.Site()); }
      var found := Cxx.Scan(m, Cxx.Stage.Search, lsda, view.Site());
      if found.Ok? && !found.value.Handler? {
        Cxx.CleanAgrees(m, Cxx.Stage.Search, lsda, view.Site());
      }
    case _ =>
  }
}
