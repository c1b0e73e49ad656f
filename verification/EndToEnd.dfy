/**
 * Whole propagations over typed personalities, on the methods of the unwinder and for stacks of Rust and C++ frames.
 *
 * If the search found a handler, then raising never returns and no resume traps, unless the frame that resumes
 * stands at a call site that cannot be cleaned up.
 */
module EndToEnd {
  import opened Words
  import opened Stack
  import opened Protocol
  import opened Passes
  import opened Delivery
  import opened Runs
  import CallFrame
  import CxxScan
  import Personalities
  import Registers
  import RustScan
  import Walk

  // ---- Runs ----

  /** What decides does not depend on anything that may change between two entries, but for the policies' answers. */
  lemma SameDecisions(
    env: Env, a: Activation, other: Env, b: Activation, policies: Policies, phase: Phase)
    requires SameFrame(env.m, a, other.m, b) && env.exception == other.exception && env.class_ == other.class_
    ensures DecisionOf(env, policies, a, phase) == DecisionOf(other, policies, b, phase)
    ensures PromisesCleanup(env, policies, a) == PromisesCleanup(other, policies, b)
    ensures PromisesHandler(env, policies, a) == PromisesHandler(other, policies, b)
  {
    SameView(env, a, other, b);
    hide RoutineOf, FrameView;
  }

  lemma SameView(env: Env, a: Activation, other: Env, b: Activation)
    requires SameFrame(env.m, a, other.m, b)
    ensures FrameView(env, a) == FrameView(other, b) && RoutineOf(env.m, a.info) == RoutineOf(other.m, b.info)
  {
    hide RoutineOf, CallFrame.Resolve;
  }

  /** A later root of the propagation is still ready for the handler that the search chose. */
  lemma StillReady(policies: Policies, first: Leg, h: nat, key: Word, leg: Leg)
    requires Kept(first, h, key, leg) && leg.base < h && Promising(first.env, policies, first.frames, h)
    requires forall i | 0 <= i < h :: LetsPass(first.env, policies, first.frames[i])
    requires IsHandler(first.env, policies, first.frames[h])
    requires forall i | 0 <= i < |leg.frames| ::
               Registers.PRESERVED <= leg.frames[i].image.Keys && Key(leg.frames[i]).Some?
    requires CleansUp(leg.env, policies, leg.frames[0])
    ensures Ready(leg.env, policies, leg.frames, key, h - leg.base)
  {
    hide VisitsKept, SameFrame, DecisionOf, PromisesCleanup, PromisesHandler, KeyOf;
    forall i | 1 <= i <= h - leg.base
      ensures i < h - leg.base ==> CleansUp(leg.env, policies, leg.frames[i])
      ensures i == h - leg.base ==> CanHandle(leg.env, policies, leg.frames[i])
    {
      var same := first.frames[leg.base + i];
      SameDecisions(leg.env, leg.frames[i], first.env, same, policies, Phase.Search);
      PromiseKept(leg.env, policies, leg.frames[i]);
    }
  }

  /** A resume goes on with phase two, and traps where that would return. */
  lemma ResumedOutcome(first: Leg, h: nat, key: Word, leg: Leg)
    requires Kept(first, h, key, leg) && ResumedLeg(leg) && leg.base < h
    ensures Key(leg.frames[0]) != Some(key)
    ensures var outcome := NormalPass(leg.env, leg.log, leg.frames, leg.bottom, key, 0).outcome;
            leg.Outcome() == if outcome.Restored? then outcome else Trapped
  {
    hide NormalPass, VisitsKept, SameFrame, KeyOf;
    assert leg.before == (0, key);
  }

  /**
   * Resuming: in a run after a successful search, a resume leaves for a landing pad again, at the handler's
   * frame or a younger one, if and only if the frame it resumes from can be cleaned up at the resume site.
   * Otherwise it traps.
   */
  lemma ResumeDelivers(policies: Policies, legs: seq<Leg>, k: nat)
    requires Run(legs) && 0 < k < |legs| && Typed(legs[0].env, policies) && Typed(legs[k].env, policies)
    requires Promising(legs[0].env, policies, legs[0].frames, legs[0].Found().value.0)
    requires Grounded(legs[k].env.m, legs[k].frames, legs[k].bottom)
    ensures var (h, _) := legs[0].Found().value;
            var leg := legs[k];
            && leg.base < h && leg.frames != []
            && (CleansUp(leg.env, policies, leg.frames[0]) ==>
                  Delivered(leg.env, policies, leg.frames, h - leg.base, 0, leg.Outcome()))
            && (!CleansUp(leg.env, policies, leg.frames[0]) ==> leg.Outcome() == Trapped)
  {
    hide SearchPass, NormalPass, Grounded, DecisionOf, Typed, Delivered, Kept, Follows, CleanupPad, Ready, FirstLeg,
         ResumedLeg, Promising;
    var first, leg := legs[0], legs[k];
    var (h, key) := first.Found().value;
    SearchMeans(first.env, policies, first.log, first.frames, first.bottom, 0);
    RunKeeps(legs, k - 1);
    RunKeeps(legs, k);
    assert ResumesCleanup(legs, k);
    ResumeKept(first, h, key, legs[k - 1], leg);
    GroundedKeeps(leg.env.m, leg.frames, leg.bottom);
    ResumedOutcome(first, h, key, leg);
    if CleansUp(leg.env, policies, leg.frames[0]) {
      StillReady(policies, first, h, key, leg);
      PassDelivers(leg.env, policies, leg.log, leg.frames, leg.bottom, key, 0, h - leg.base);
      DeliveredRestores(leg.env, policies, leg.frames, h - leg.base, 0,
                        NormalPass(leg.env, leg.log, leg.frames, leg.bottom, key, 0).outcome);
    } else {
      StuckAtOnce(leg.env, policies, leg.log, leg.frames, leg.bottom, key);
    }
  }

  lemma DeliveredRestores(env: Env, policies: Policies, frames: seq<Activation>, h: nat, depth: nat, outcome: Outcome)
    requires Delivered(env, policies, frames, h, depth, outcome)
    ensures outcome.Restored?
  {
    hide Lands, DecisionOf;
  }

  // ---- The methods of the unwinder ----

  /** An entry jumps to the pad of the first frame that decided on one, frame `h` at the latest. */
  predicate JumpsUpTo(env: Env, policies: Policies, frames: seq<Activation>, h: nat, ending: Walk.Ending) {
    ending.Jump? && exists i | 0 <= i <= h && i < |frames| :: JumpsAt(env, policies, frames, h, i, ending.registers)
  }

  predicate JumpsAt(
    env: Env, policies: Policies, frames: seq<Activation>, h: nat, i: nat, registers: Registers.Image)
    requires i < |frames|
  {
    && Lands(env, frames[i], DecisionOf(env, policies, frames[i], PhaseAt(i, h)), registers)
    && AllGoOn(env, policies, frames, i, h)
  }

  lemma DeliveredJumps(env: Env, policies: Policies, frames: seq<Activation>, h: nat, outcome: Outcome)
    requires Delivered(env, policies, frames, h, 0, outcome)
    ensures JumpsUpTo(env, policies, frames, h, Walk.EndingOf(outcome))
  {
    hide Lands, DecisionOf;
    assert JumpsAt(env, policies, frames, h, outcome.depth, outcome.registers);
  }

  /** Raising with typed personalities: it jumps to a landing pad, or returns what the search failed with. */
  method Raise(
    m: CallFrame.Machine, world: Walk.World, registers: Registers.State, exception: Walk.Exception,
    ghost policies: Policies, ghost frames: seq<Activation>, ghost bottom: Bottom)
    returns (ending: Walk.Ending)
    requires Typed(Walk.EnvOf(m, world, exception), policies) && CalmStops(world.respond)
    requires Unrolls(m, registers.slots, CallFrame.Return, frames, bottom) && GentleStack(frames)
    requires Registers.PRESERVED <= registers.slots.Keys
    requires var found := SearchPass(Walk.EnvOf(m, world, exception), world.log, frames, bottom, 0).found;
             found.Ok? ==>
               && Foremost(frames, found.value.0, found.value.1)
               && Promising(Walk.EnvOf(m, world, exception), policies, frames, found.value.0)
    modifies world, registers, exception
    ensures var env := Walk.EnvOf(m, world, exception);
            var found := SearchPass(env, old(world.log), frames, bottom, 0).found;
            && (found.Ok? ==> JumpsUpTo(env, policies, frames, found.value.0, ending))
            && (found.Err? ==> ending == Walk.Code(found.error))
  {
    ghost var env := Walk.EnvOf(m, world, exception);
    TypedIsDisciplined(env, policies);
    SearchInside(env, world.log, frames, bottom);
    RootGrounded(m, registers.slots, frames, bottom);
    hide SearchPass, BeginEntry, Grounded, Unrolls, Typed, CalmStops, Disciplined, Delivered, JumpsUpTo, Promising;
    if frames != [] { RaiseDelivers(env, policies, exception.words, world.log, frames, bottom); }
    ghost var found := SearchPass(env, world.log, frames, bottom, 0).found;
    ghost var outcome := BeginEntry(env, exception.words, world.log, frames, bottom).passage.outcome;
    if frames == [] { NothingFound(env, exception.words, world.log, bottom); }
    if found.Ok? { DeliveredJumps(env, policies, frames, found.value.0, outcome); }
    ending := Walk.Raise(m, world, registers, exception, frames, bottom);
  }

  lemma SearchInside(env: Env, log: seq<Event>, frames: seq<Activation>, bottom: Bottom)
    ensures SearchPass(env, log, frames, bottom, 0).found.Ok? ==> frames != []
  {
  }

  lemma NothingFound(env: Env, words: (Word, Word), log: seq<Event>, bottom: Bottom)
    ensures var found := SearchPass(env, log, [], bottom, 0).found;
            found.Err? && BeginEntry(env, words, log, [], bottom).passage.outcome == Returned(found.error)
  {
  }

  lemma RootGrounded(m: CallFrame.Machine, image: Registers.Image, frames: seq<Activation>, bottom: Bottom)
    requires Unrolls(m, image, CallFrame.Return, frames, bottom) && GentleStack(frames)
             && Registers.PRESERVED <= image.Keys
    ensures frames != [] ==> Grounded(m, frames, bottom)
  {
    hide CallFrame.InfoOf, CallFrame.CallerOf;
  }

  /**
   * Resuming with typed personalities, at entry `k` of a run: it jumps to a landing pad again if and only if the
   * frame that resumes can be cleaned up, and traps otherwise.
   */
  method Resume(
    m: CallFrame.Machine, world: Walk.World, registers: Registers.State, exception: Walk.Exception,
    ghost policies: Policies, ghost legs: seq<Leg>, ghost k: nat)
    returns (ending: Walk.Ending)
    requires Run(legs) && 0 < k < |legs| && Typed(legs[0].env, policies)
    requires Promising(legs[0].env, policies, legs[0].frames, legs[0].Found().value.0)
    requires legs[k].env == Walk.EnvOf(m, world, exception) && legs[k].log == world.log
    requires legs[k].before == exception.words
    requires Typed(legs[k].env, policies) && CalmStops(world.respond)
    requires Unrolls(m, registers.slots, CallFrame.Return, legs[k].frames, legs[k].bottom)
             && GentleStack(legs[k].frames)
    requires Registers.PRESERVED <= registers.slots.Keys
    modifies world, registers
    ensures var (h, _) := legs[0].Found().value;
            var leg := legs[k];
            && leg.base < h && leg.frames != []
            && (CleansUp(leg.env, policies, leg.frames[0]) ==>
                  JumpsUpTo(leg.env, policies, leg.frames, h - leg.base, ending))
            && (!CleansUp(leg.env, policies, leg.frames[0]) ==> ending == Walk.Trap)
    ensures ending == Walk.EndingOf(legs[k].Outcome()) && exception.words == legs[k].entry.words
  {
    ghost var leg := legs[k];
    TypedIsDisciplined(leg.env, policies);
    ResumeEnds(registers.slots, policies, legs, k);
    hide SearchPass, ResumeEntry, Unrolls, Typed, CalmStops, Disciplined, JumpsUpTo, Promising, DecisionOf, Run,
         GentleStack;
    ending := Walk.ResumeUnwind(m, world, registers, exception, leg.frames, leg.bottom);
  }

  /** How entry `k` of a run ends, from the registers it was entered with. */
  lemma ResumeEnds(image: Registers.Image, policies: Policies, legs: seq<Leg>, k: nat)
    requires Run(legs) && 0 < k < |legs| && Typed(legs[0].env, policies) && Typed(legs[k].env, policies)
    requires Promising(legs[0].env, policies, legs[0].frames, legs[0].Found().value.0)
    requires Unrolls(legs[k].env.m, image, CallFrame.Return, legs[k].frames, legs[k].bottom)
    requires GentleStack(legs[k].frames) && Registers.PRESERVED <= image.Keys
    ensures var (h, _) := legs[0].Found().value;
            var leg := legs[k];
            var ending := Walk.EndingOf(leg.Outcome());
            && leg.base < h && leg.frames != []
            && leg.entry == ResumeEntry(leg.env, leg.before, leg.log, leg.frames, leg.bottom)
            && (CleansUp(leg.env, policies, leg.frames[0]) ==>
                  JumpsUpTo(leg.env, policies, leg.frames, h - leg.base, ending))
            && (!CleansUp(leg.env, policies, leg.frames[0]) ==> ending == Walk.Trap)
  {
    hide SearchPass, ResumeEntry, Grounded, Unrolls, Typed, Delivered, JumpsUpTo, Promising, DecisionOf, GentleStack,
         Run, CleansUp;
    var leg := legs[k];
    RootGrounded(leg.env.m, image, leg.frames, leg.bottom);
    LaterFrames(legs, k);
    IsResumed(legs, k);
    ResumeDelivers(policies, legs, k);
    var h := legs[0].Found().value.0;
    if CleansUp(leg.env, policies, leg.frames[0]) {
      DeliveredJumps(leg.env, policies, leg.frames, h - leg.base, leg.Outcome());
    }
  }

  lemma IsResumed(legs: seq<Leg>, k: nat)
    requires Run(legs) && 0 < k < |legs|
    ensures ResumedLeg(legs[k])
  {
    hide SearchPass, ResumedLeg, FirstLeg, Follows, CleanupPad;
    assert ResumesCleanup(legs, k);
  }

  /** The search has found a handler, whose frame is still on the stack of every entry. */
  lemma LaterFrames(legs: seq<Leg>, k: nat)
    requires Run(legs) && k < |legs|
    ensures legs[0].Found().Ok? && legs[k].frames != []
  {
    hide SearchPass, FirstLeg, ResumesCleanup, VisitsKept;
    RunKeeps(legs, k);
  }

  // ---- Forced propagations ----

  /** A stack that is empty, or on which every frame knows what a landing pad needs. */
  ghost predicate GroundedOrEmpty(m: CallFrame.Machine, frames: seq<Activation>, bottom: Bottom) {
    frames == [] || Grounded(m, frames, bottom)
  }

  /** A forced pass from a grounded stack ends at the first frame that does not let it go on. */
  lemma ForcedPassEnds(
    env: Env, policies: Policies, log: seq<Event>, frames: seq<Activation>, bottom: Bottom, forced: Forced)
    requires Typed(env, policies) && StopsAccept(env.respond) && GroundedOrEmpty(env.m, frames, bottom)
    ensures ForcedEnds(env, policies, frames, bottom, 0, ForcedPass(env, log, frames, bottom, forced, 0).outcome)
  {
    hide Grounded, Typed, StopsAccept, ForcedEnds, ForcedPass, FirstStopped;
    if frames != [] { GroundedKeeps(env.m, frames, bottom); }
    ForcedDelivers(env, policies, log, frames, bottom, forced, 0);
  }

  /** Forced unwinding with typed personalities and stop functions that accept, on the method of the unwinder. */
  method ForcedUnwind(
    m: CallFrame.Machine, world: Walk.World, registers: Registers.State, exception: Walk.Exception, forced: Forced,
    ghost policies: Policies, ghost frames: seq<Activation>, ghost bottom: Bottom)
    returns (ending: Walk.Ending)
    requires Typed(Walk.EnvOf(m, world, exception), policies)
    requires CalmStops(world.respond) && StopsAccept(world.respond)
    requires Unrolls(m, registers.slots, CallFrame.Return, frames, bottom) && GentleStack(frames)
    requires Registers.PRESERVED <= registers.slots.Keys
    modifies world, registers, exception
    ensures var env := Walk.EnvOf(m, world, exception);
            var outcome := ForcedPass(env, old(world.log), frames, bottom, forced, 0).outcome;
            ForcedEnds(env, policies, frames, bottom, 0, outcome) && ending == Walk.EndingOf(outcome)
    ensures exception.words == (forced.stop, forced.parameter)
  {
    hide ForcedPass, ForcedEnds, Unrolls, Typed, CalmStops, StopsAccept, Disciplined, GentleStack, Grounded;
    ghost var env := Walk.EnvOf(m, world, exception);
    TypedIsDisciplined(env, policies);
    RootGrounded(m, registers.slots, frames, bottom);
    ForcedPassEnds(env, policies, world.log, frames, bottom, forced);
    ending := Walk.ForcedUnwind(m, world, registers, exception, forced, frames, bottom);
  }

  /**
   * Every entry of a forced run with typed personalities and stop functions that accept: its pass ends at the first
   * frame that does not let it go on, or where the stack does. A resume traps where the pass has no landing pad,
   * and the first entry and a rethrow return its reason code.
   */
  lemma ForcedRunDelivers(policies: Policies, forced: Forced, legs: seq<Leg>, k: nat)
    requires ForcedRun(forced, legs) && k < |legs|
    requires Typed(legs[k].env, policies) && StopsAccept(legs[k].env.respond)
    requires GroundedOrEmpty(legs[k].env.m, legs[k].frames, legs[k].bottom)
    ensures var leg := legs[k];
            var pass := ForcedPass(leg.env, leg.log, leg.frames, leg.bottom, forced, 0).outcome;
            && ForcedEnds(leg.env, policies, leg.frames, leg.bottom, 0, pass)
            && (k == 0 || RethrownLeg(leg) ==> leg.Outcome() == pass)
            && (k > 0 && ResumedLeg(leg) ==> leg.Outcome() == if pass.Restored? then pass else Trapped)
            && (k == 0 || RethrownLeg(leg) || ResumedLeg(leg))
  {
    hide ForcedPass, ForcedEnds, Typed, StopsAccept, GroundedOrEmpty, RethrownLeg, ResumedLeg;
    var leg := legs[k];
    ForcedRunKeeps(forced, legs, k);
    ForcedPassEnds(leg.env, policies, leg.log, leg.frames, leg.bottom, forced);
    if k > 0 { assert ForcedStep(legs, k); }
  }

  // ---- Stacks of Rust and C++ frames ----

  datatype Language = Rust | Cxx(runtime: Personalities.Runtime)

  function PolicyOf(source: Personalities.Source, language: Language): Policy {
    match language
    case Rust => Personalities.RustPolicy(source)
    case Cxx(runtime) => Personalities.CxxPolicy(source, runtime)
  }

  function PoliciesOf(source: Personalities.Source, languages: NonZero -> Language): Policies {
    (routine: NonZero) => PolicyOf(source, languages(routine))
  }

  /** If the frame is a C++ frame, its matcher repeats in the handler stage the answers it gave while searching. */
  predicate Repeating(env: Env, source: Personalities.Source, languages: NonZero -> Language, a: Activation) {
    match RoutineOf(env.m, a.info)
    case Ok(Some(routine)) =>
      var language := languages(routine);
      language.Cxx? ==>
        Personalities.MatcherRepeats(source, language.runtime(env.exception, env.class_), FrameView(env, a))
    case _ => true
  }

  lemma LanguagesPromise(env: Env, source: Personalities.Source, languages: NonZero -> Language, a: Activation)
    ensures PromisesCleanup(env, PoliciesOf(source, languages), a)
    ensures Repeating(env, source, languages, a) ==> PromisesHandler(env, PoliciesOf(source, languages), a)
  {
    hide RoutineOf, FrameView, Personalities.MatcherRepeats, Personalities.CleansAfterPass,
         Personalities.HandlesAfterClaim, Personalities.RustPolicy, Personalities.CxxPolicy;
    var routine := RoutineOf(env.m, a.info);
    if routine.Ok? && routine.value.Some? {
      match languages(routine.value.value)
      case Rust => Personalities.RustKeepsPromise(source, FrameView(env, a), env.exception, env.class_);
      case Cxx(runtime) => Personalities.CxxKeepsPromise(source, runtime, FrameView(env, a), env.exception, env.class_);
    }
  }

  /** A repeating matcher at the one frame that the search selects is all that Rust and C++ frames need to promise. */
  lemma SelectedPromises(
    env: Env, source: Personalities.Source, languages: NonZero -> Language, frames: seq<Activation>, h: nat)
    requires h < |frames| && Repeating(env, source, languages, frames[h])
    ensures Promising(env, PoliciesOf(source, languages), frames, h)
  {
    hide PromisesCleanup, PromisesHandler, Repeating;
    LanguagesPromise(env, source, languages, frames[h]);
    forall i | 0 <= i < h ensures PromisesCleanup(env, PoliciesOf(source, languages), frames[i]) {
      LanguagesPromise(env, source, languages, frames[i]);
    }
  }

  /** The call site at which a frame stands is neither a terminate site nor malformed. */
  predicate Usable(env: Env, source: Personalities.Source, languages: NonZero -> Language, a: Activation) {
    match RoutineOf(env.m, a.info)
    case Err(_) => false
    case Ok(None) => true
    case Ok(Some(routine)) =>
      match languages(routine)
      case Rust => RustUsable(source, FrameView(env, a))
      case Cxx(_) => CxxUsable(source, FrameView(env, a))
  }

  predicate RustUsable(source: Personalities.Source, view: View) {
    match Personalities.LsdaOf(source, view)
    case Ok(None) => true
    case Ok(Some(lsda)) => (var action := RustScan.Scan(lsda, view.Site()); action.Ok? && !action.value.Terminate?)
    case Err(_) => false
  }

  predicate CxxUsable(source: Personalities.Source, view: View) {
    match Personalities.LsdaOf(source, view)
    case Ok(None) => true
    case Ok(Some(lsda)) => (var action := CxxScan.Clean(lsda, view.Site()); action.Ok? && !action.value.Terminate?)
    case Err(_) => false
  }

  lemma UsableCleansUp(env: Env, source: Personalities.Source, languages: NonZero -> Language, a: Activation)
    ensures Usable(env, source, languages, a) <==> CleansUp(env, PoliciesOf(source, languages), a)
  {
    hide RoutineOf, FrameView, RustScan.Scan, CxxScan.Clean, Personalities.LsdaOf;
    var routine := RoutineOf(env.m, a.info);
    if routine.Ok? && routine.value.Some? && languages(routine.value.value).Cxx? {
      CleanNeverHandles(source, FrameView(env, a));
    }
  }

  /** The cleanup scan never selects a handler. */
  lemma CleanNeverHandles(source: Personalities.Source, view: View)
    ensures match Personalities.LsdaOf(source, view)
            case Ok(Some(lsda)) =>
              (var action := CxxScan.Clean(lsda, view.Site()); action.Ok? ==> !action.value.Handler?)
            case _ => true
  {
    hide Personalities.LsdaOf, CxxScan.FirstError;
  }

  /**
   * A stack of Rust and C++ frames, where the matcher of the one frame that the search selects repeats its answers:
   * neither the raise nor any resume ends in a fatal error, except a resume whose own call site is a terminate
   * site or malformed, and that one always traps.
   */
  lemma MixedStackDelivers(
    source: Personalities.Source, languages: NonZero -> Language, legs: seq<Leg>, k: nat)
    requires Run(legs) && k < |legs|
    requires Typed(legs[0].env, PoliciesOf(source, languages)) && Typed(legs[k].env, PoliciesOf(source, languages))
    requires var h := legs[0].Found().value.0;
             h < |legs[0].frames| && Repeating(legs[0].env, source, languages, legs[0].frames[h])
    requires Grounded(legs[k].env.m, legs[k].frames, legs[k].bottom)
    ensures var (h, _) := legs[0].Found().value;
            var leg := legs[k];
            && leg.base <= h && leg.frames != []
            && (leg.Outcome().Restored? <==> k == 0 || Usable(leg.env, source, languages, leg.frames[0]))
            && (leg.Outcome().Restored? ==>
                  Delivered(leg.env, PoliciesOf(source, languages), leg.frames, h - leg.base, 0, leg.Outcome()))
            && (!leg.Outcome().Restored? ==> leg.Outcome() == Trapped)
  {
    hide SearchPass, NormalPass, Grounded, DecisionOf, Typed, Follows, CleanupPad, Ready, ResumedLeg, PoliciesOf,
         Usable, Repeating, Promising, Lands, BeginEntry;
    var policies := PoliciesOf(source, languages);
    var first, leg := legs[0], legs[k];
    var h := first.Found().value.0;
    SelectedPromises(first.env, source, languages, first.frames, h);
    GroundedKeeps(leg.env.m, leg.frames, leg.bottom);
    if k == 0 {
      RaiseDelivers(first.env, policies, first.before, first.log, first.frames, first.bottom);
    } else {
      ResumeDelivers(policies, legs, k);
      UsableCleansUp(leg.env, source, languages, leg.frames[0]);
    }
  }
}
