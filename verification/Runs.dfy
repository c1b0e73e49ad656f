/**
 * Whole propagations: a raise, then any number of cleanup landing pads, each of which resumes the unwinder.
 *
 * Between two entries arbitrary code runs. A run assumes of it what the unwinder cannot check: the private
 * words are left alone, the frames older than the landing pad's frame are the same for lookups and keys, the landing
 * pad's own frame does not take on the key of the handler's frame, and the handler's pad does not itself resume.
 * Memory may change, and so may the tables of the machine, as long as the personality and table pointers of these
 * older frames resolve alike. Apart from that the landing pad's own frame, the log and whatever answers the calls may
 * differ in every way.
 */
module Runs {
  import opened Words
  import opened Registers
  import opened CallFrame
  import opened Stack
  import opened Protocol
  import opened Passes
  import opened Phases
  import opened Forcing

  /** One entry of a run; `base` counts the frames of the first entry's stack that are gone. */
  datatype Leg = Leg(
    env: Env, base: nat, before: (Word, Word), log: seq<Event>, frames: seq<Activation>, bottom: Bottom, entry: Entry)
  {
    function Visits(): seq<Visit> { entry.passage.visits }

    function Outcome(): Outcome { entry.passage.outcome }

    /** What a search from the root of this entry finds. */
    function Found(): Result<(nat, Word), int> { SearchPass(env, log, frames, bottom, 0).found }

    /** Where the landing pad of this entry was installed, counted from the first entry's root. */
    function Pad(): nat
      requires Outcome().Restored?
    {
      base + Outcome().depth
    }
  }

  /** Nothing that lookups, keys or personalities of the frame depend on differs, seen by two machines. */
  predicate SameFrame(m: Machine, a: Activation, n: Machine, b: Activation) {
    && a.info == b.info && a.relation == b.relation
    && At(a.image, RSP) == At(b.image, RSP) && At(a.image, RA) == At(b.image, RA)
    && RoutineOf(m, a.info) == RoutineOf(n, b.info) && Resolve(m, a.info.fde.lsda) == Resolve(n, b.info.fde.lsda)
  }

  predicate SameException(prev: Leg, next: Leg) {
    next.env.exception == prev.env.exception && next.env.class_ == prev.env.class_
  }

  /** `next` enters from the landing pad that `prev` installed. */
  predicate Follows(prev: Leg, next: Leg) {
    && prev.Outcome().Restored? && SameException(prev, next)
    && var p := prev.Outcome().depth;
    && p < |prev.frames| && 0 < |next.frames| == |prev.frames| - p
    && next.base == prev.base + p
    && next.before == prev.entry.words
    && (forall i | 1 <= i < |next.frames| :: SameFrame(next.env.m, next.frames[i], prev.env.m, prev.frames[p + i]))
    && Key(next.frames[0]) != Some(next.before.1)
  }

  /** The landing pad was a cleanup, not the handler: the caught exception does not resume. */
  predicate CleanupPad(leg: Leg) {
    leg.Visits() != [] && !Has(leg.Visits()[|leg.Visits()| - 1].actions, ACTION_HANDLER)
  }

  predicate FirstLeg(leg: Leg) {
    && leg.base == 0
    && leg.entry == BeginEntry(leg.env, leg.before, leg.log, leg.frames, leg.bottom)
  }

  predicate ResumedLeg(leg: Leg) {
    leg.entry == ResumeEntry(leg.env, leg.before, leg.log, leg.frames, leg.bottom)
  }

  /** A raise whose search found a handler, and the resumes after its cleanup pads. */
  predicate Run(legs: seq<Leg>) {
    && legs != [] && FirstLeg(legs[0])
    && legs[0].Found().Ok? && Foremost(legs[0].frames, legs[0].Found().value.0, legs[0].Found().value.1)
    && forall k | 0 < k < |legs| :: ResumesCleanup(legs, k)
  }

  predicate ResumesCleanup(legs: seq<Leg>, k: nat)
    requires 0 < k < |legs|
  {
    Follows(legs[k - 1], legs[k]) && CleanupPad(legs[k - 1]) && ResumedLeg(legs[k])
  }

  /** What every entry of a run keeps, for a handler at frame `h` of the first entry's stack with key `key`. */
  predicate Kept(first: Leg, h: nat, key: Word, leg: Leg) {
    && leg.base <= h < |first.frames| == leg.base + |leg.frames|
    && leg.entry.words == (0, key) && SameException(first, leg)
    && Key(leg.frames[h - leg.base]) == Some(key) && Foremost(leg.frames, h - leg.base, key)
    && (forall i | 1 <= i < |leg.frames| ::
          SameFrame(leg.env.m, leg.frames[i], first.env.m, first.frames[leg.base + i]))
    && VisitsKept(h, leg)
  }

  /** Visits run upward from the base, only frame `h` is told that it handles, and a pad is the last visit's. */
  predicate VisitsKept(h: nat, leg: Leg) {
    var visits := leg.Visits();
    && leg.base + |visits| <= h + 1
    && (forall i | 0 <= i < |visits| ::
          visits[i].depth == i
          && visits[i].actions == if leg.base + i == h then BitOr(ACTION_CLEANUP, ACTION_HANDLER) else ACTION_CLEANUP)
    && (forall i | 0 <= i < |visits| - 1 :: Passed(visits[i].reply))
    && (leg.Outcome().Restored? ==>
          visits != [] && leg.Outcome().depth == |visits| - 1 && Installs(visits[|visits| - 1].reply))
  }

  lemma SameKey(m: Machine, a: Activation, n: Machine, b: Activation)
    requires SameFrame(m, a, n, b)
    ensures Key(a) == Key(b)
  {
    hide RoutineOf, Resolve;
    assert At(a.image, RSP) == At(b.image, RSP);
  }

  /** Phase two from any root of a run, whatever was logged before. */
  lemma PassKeeps(log: seq<Event>, leg: Leg, h: nat, key: Word)
    requires leg.base <= h < leg.base + |leg.frames|
    requires Key(leg.frames[h - leg.base]) == Some(key) && Foremost(leg.frames, h - leg.base, key)
    requires var r := NormalPass(leg.env, log, leg.frames, leg.bottom, key, 0);
             leg.Visits() == r.visits && (leg.Outcome().Restored? ==> leg.Outcome() == r.outcome)
    ensures VisitsKept(h, leg)
  {
    hide NormalPass, KeyOf, BitOr, InstallAt, Recorded;
    SelectsFirstKey(leg.env, log, leg.frames, leg.bottom, key, h - leg.base);
    NormalVisits(leg.env, log, leg.frames, leg.bottom, key, 0);
    NormalOutcome(leg.env, log, leg.frames, leg.bottom, key, 0);
  }

  lemma FirstKept(leg: Leg)
    requires FirstLeg(leg) && leg.Found().Ok? && Foremost(leg.frames, leg.Found().value.0, leg.Found().value.1)
    ensures var (h, key) := leg.Found().value; Kept(leg, h, key, leg)
  {
    hide SearchPass, NormalPass, KeyOf, VisitsKept, Recorded, BitOr, Claims, Passed, RoutineOf, Resolve;
    var searched := SearchPass(leg.env, leg.log, leg.frames, leg.bottom, 0);
    SearchVisits(leg.env, leg.log, leg.frames, leg.bottom, 0);
    RecordedLength(leg.env, leg.log, leg.frames, 0, searched.visits, searched.log);
    var (h, key) := searched.found.value;
    var r := NormalPass(leg.env, searched.log, leg.frames, leg.bottom, key, 0);
    assert leg.Visits() == r.visits && leg.Outcome() == r.outcome;
    PassKeeps(searched.log, leg, h, key);
  }

  /** A cleanup pad stands in front of frame `h`. */
  lemma CleanupInFront(h: nat, leg: Leg)
    requires VisitsKept(h, leg) && leg.Outcome().Restored? && CleanupPad(leg)
    ensures leg.Pad() < h
  {
    Masks();
  }

  lemma ResumeKept(first: Leg, h: nat, key: Word, prev: Leg, next: Leg)
    requires Kept(first, h, key, prev) && Follows(prev, next) && CleanupPad(prev) && ResumedLeg(next)
    ensures Kept(first, h, key, next)
    ensures prev.Pad() == next.base < h
    ensures next.Outcome().Restored? || next.Outcome() == Trapped
  {
    hide NormalPass, KeyOf, SameFrame, VisitsKept, InstallAt, SearchPass, ForcedPass;
    CleanupInFront(h, prev);
    hide CleanupPad;
    var p := prev.Outcome().depth;
    assert next.before == (0, key) && next.entry.words == (0, key);
    forall i | 1 <= i < |next.frames|
      ensures SameFrame(next.env.m, next.frames[i], first.env.m, first.frames[next.base + i])
      ensures Key(next.frames[i]) == Key(prev.frames[p + i])
    {
      SameKey(next.env.m, next.frames[i], prev.env.m, prev.frames[p + i]);
      SameFrameChain(next.env.m, next.frames[i], prev.env.m, prev.frames[p + i], first.env.m,
          first.frames[next.base + i]);
    }
    SameKey(next.env.m, next.frames[h - next.base], prev.env.m, prev.frames[h - prev.base]);
    var r := NormalPass(next.env, next.log, next.frames, next.bottom, key, 0);
    assert next.Visits() == r.visits && (next.Outcome().Restored? ==> next.Outcome() == r.outcome);
    PassKeeps(next.log, next, h, key);
  }

  lemma SameFrameChain(m: Machine, a: Activation, n: Machine, b: Activation, o: Machine, c: Activation)
    requires SameFrame(m, a, n, b) && SameFrame(n, b, o, c)
    ensures SameFrame(m, a, o, c)
  {
    hide RoutineOf, Resolve;
  }

  /**
   * Over every run the private words stay zero and the key that phase one chose, no visit ever gets past the
   * chosen frame, and only that frame is told that it handles the exception. A resume ends in a landing pad or
   * a trap and never comes back.
   */
  lemma {:induction false} RunKeeps(legs: seq<Leg>, k: nat)
    requires Run(legs) && k < |legs|
    ensures var (h, key) := legs[0].Found().value; Kept(legs[0], h, key, legs[k])
    ensures k > 0 ==> legs[k].Outcome().Restored? || legs[k].Outcome() == Trapped
    decreases k
  {
    hide SearchPass, Kept, Follows, CleanupPad, ResumedLeg, FirstLeg;
    if k == 0 {
      FirstKept(legs[0]);
    } else {
      RunKeeps(legs, k - 1);
      assert ResumesCleanup(legs, k);
      var (h, key) := legs[0].Found().value;
      ResumeKept(legs[0], h, key, legs[k - 1], legs[k]);
    }
  }

  /** Landing pads never move back toward younger frames. */
  lemma {:induction false} PadsMoveOn(legs: seq<Leg>, j: nat, k: nat)
    requires Run(legs) && j <= k < |legs| && legs[k].Outcome().Restored?
    ensures legs[j].Outcome().Restored? && legs[j].base <= legs[j].Pad() <= legs[k].Pad()
    decreases k
  {
    hide SearchPass, ResumedLeg, FirstLeg, SameFrame;
    if j < k {
      assert ResumesCleanup(legs, k);
      PadsMoveOn(legs, j, k - 1);
    }
  }

  predicate Visited(leg: Leg, q: nat) {
    leg.base <= q < leg.base + |leg.Visits()|
  }

  predicate VisitedBy(legs: seq<Leg>, k: nat, q: nat)
    requires k < |legs|
  {
    exists j | 0 <= j <= k :: Visited(legs[j], q)
  }

  /** No frame up to a landing pad is left out: each was visited by this entry or an earlier one. */
  lemma {:induction false} NoFrameSkipped(legs: seq<Leg>, k: nat, q: nat)
    requires Run(legs) && k < |legs| && legs[k].Outcome().Restored? && q <= legs[k].Pad()
    ensures VisitedBy(legs, k, q)
    decreases k
  {
    hide SearchPass, ResumedLeg, FirstLeg, SameFrame;
    RunKeeps(legs, k);
    if legs[k].base <= q {
      assert Visited(legs[k], q);
    } else {
      if k > 0 { assert ResumesCleanup(legs, k); }
      NoFrameSkipped(legs, k - 1, q);
    }
  }

  /** Whether visit `i` of the entry asked for a landing pad. */
  predicate Asked(leg: Leg, i: nat) {
    i < |leg.Visits()| && Installs(leg.Visits()[i].reply)
  }

  /** A frame that asked for cleanup and got its pad there, in front of frame `h`. */
  predicate GotCleanup(leg: Leg, i: nat, h: nat) {
    && i < |leg.Visits()| && leg.Visits()[i].actions == ACTION_CLEANUP
    && leg.Outcome().Restored? && leg.Pad() == leg.base + i < h
  }

  /** An entry that was resumed from had installed a cleanup pad in front of the handler's frame. */
  lemma CleanupBeforeHandler(legs: seq<Leg>, j: nat, i: nat)
    requires Run(legs) && j + 1 < |legs| && Asked(legs[j], i)
    ensures var (h, _) := legs[0].Found().value; GotCleanup(legs[j], i, h)
  {
    hide SearchPass, FirstLeg, Kept, Asked, GotCleanup, Follows, CleanupPad, ResumedLeg;
    var (h, key) := legs[0].Found().value;
    RunKeeps(legs, j);
    assert ResumesCleanup(legs, j + 1);
    AskedCleanup(legs[0], h, key, legs[j], legs[j + 1], i);
  }

  lemma AskedCleanup(first: Leg, h: nat, key: Word, prev: Leg, next: Leg, i: nat)
    requires Kept(first, h, key, prev) && Follows(prev, next) && CleanupPad(prev) && Asked(prev, i)
    ensures GotCleanup(prev, i, h)
  {
    hide CleanupPad, SameFrame, KeyOf, BitOr;
    assert VisitsKept(h, prev);
    hide Kept;
    assert prev.Outcome().Restored?;
    hide Follows;
    CleanupInFront(h, prev);
    AskedIsLast(h, prev, i);
    MaskInFront(h, prev, i);
  }

  lemma AskedIsLast(h: nat, leg: Leg, i: nat)
    requires VisitsKept(h, leg) && Asked(leg, i)
    ensures i == |leg.Visits()| - 1
    ensures leg.Outcome().Restored? ==> leg.Outcome().depth == i
  {
    hide BitOr;
    assert forall j | 0 <= j < |leg.Visits()| - 1 :: Passed(leg.Visits()[j].reply);
  }

  lemma MaskInFront(h: nat, leg: Leg, i: nat)
    requires VisitsKept(h, leg) && i < |leg.Visits()| && leg.base + i != h
    ensures leg.Visits()[i].actions == ACTION_CLEANUP
  {
  }

  lemma HandlerMask(h: nat, leg: Leg)
    requires VisitsKept(h, leg) && leg.Outcome().Restored? && !CleanupPad(leg)
    ensures leg.Pad() == h
  {
    Masks();
  }

  /**
   * When the handler's landing pad is reached, it is at the frame that phase one chose, and the run is over.
   * Before that, every younger frame was visited, and whichever of those visits asked for a landing pad was a
   * cleanup and had its pad installed.
   */
  lemma HandlerComesLast(legs: seq<Leg>, k: nat)
    requires Run(legs) && k < |legs| && legs[k].Outcome().Restored? && !CleanupPad(legs[k])
    ensures var (h, key) := legs[0].Found().value;
            && k == |legs| - 1 && legs[k].Pad() == h < |legs[0].frames| && Key(legs[0].frames[h]) == Some(key)
            && (forall q | 0 <= q < h :: VisitedBy(legs, k, q))
            && (forall j, i | 0 <= j < k && 0 <= i && Asked(legs[j], i) :: GotCleanup(legs[j], i, h))
  {
    hide SearchPass, FirstLeg, ResumedLeg, SameFrame;
    var (h, key) := legs[0].Found().value;
    RunKeeps(legs, k);
    RunKeeps(legs, 0);
    HandlerMask(h, legs[k]);
    if k + 1 < |legs| { ResumedIsCleanup(legs, k); }
    hide CleanupPad, Visited, Asked, GotCleanup, VisitsKept, Follows;
    assert legs[0].base == 0 by { BaseZero(legs); }
    forall q | 0 <= q < h ensures VisitedBy(legs, k, q) {
      NoFrameSkipped(legs, k, q);
    }
    forall j, i | 0 <= j < k && 0 <= i && Asked(legs[j], i) ensures GotCleanup(legs[j], i, h) {
      CleanupBeforeHandler(legs, j, i);
    }
  }

  lemma ResumedIsCleanup(legs: seq<Leg>, k: nat)
    requires Run(legs) && k + 1 < |legs|
    ensures CleanupPad(legs[k])
  {
    hide SearchPass, FirstLeg, Follows, ResumedLeg, CleanupPad;
    assert ResumesCleanup(legs, k + 1);
  }

  lemma BaseZero(legs: seq<Leg>)
    requires Run(legs)
    ensures legs[0].base == 0
  {
    hide BeginEntry, SearchPass;
  }

  /** Rethrowing the exception of a normal propagation starts a new run, with a handler of its own. */
  lemma RethrowStartsRun(leg: Leg)
    requires RethrownLeg(leg) && leg.before.0 == 0 && leg.base == 0 && leg.Found().Ok?
    requires Foremost(leg.frames, leg.Found().value.0, leg.Found().value.1)
    ensures Run([leg])
  {
    hide SearchPass, BeginEntry, ForcedPass;
  }

  // ---- Forced runs ----

  predicate RethrownLeg(leg: Leg) {
    leg.entry == RethrowEntry(leg.env, leg.before, leg.log, leg.frames, leg.bottom)
  }

  /** A forced unwind, and then any number of resumes and rethrows of its exception in any order. */
  predicate ForcedRun(forced: Forced, legs: seq<Leg>) {
    && legs != []
    && legs[0].entry == ForcedEntry(legs[0].env, legs[0].log, legs[0].frames, legs[0].bottom, forced)
    && forall k | 0 < k < |legs| :: ForcedStep(legs, k)
  }

  predicate ForcedStep(legs: seq<Leg>, k: nat)
    requires 0 < k < |legs|
  {
    legs[k].before == legs[k - 1].entry.words && (ResumedLeg(legs[k]) || RethrownLeg(legs[k]))
  }

  /**
   * Over every forced run, whatever the frames look like in between, the private words stay the stop function
   * and its parameter. Every entry makes the calls of a forced pass with that stop function and parameter, in
   * the order that `Traced` gives. A resume ends in its landing pad or a trap; the first entry and a rethrow end
   * as the pass does.
   */
  lemma {:induction false} ForcedRunKeeps(forced: Forced, legs: seq<Leg>, k: nat)
    requires ForcedRun(forced, legs) && k < |legs|
    ensures legs[k].entry.words == (forced.stop, forced.parameter)
    ensures var leg := legs[k];
            var pass := ForcedPass(leg.env, leg.log, leg.frames, leg.bottom, forced, 0);
            && leg.entry.passage.log == pass.log && leg.Visits() == pass.visits
            && Traced(leg.env, leg.log, leg.frames, leg.bottom, forced, pass)
            && AllForced(forced, Added(leg.log, pass.log))
            && (k > 0 && ResumedLeg(leg) ==> leg.Outcome() == if pass.outcome.Restored? then pass.outcome else Trapped)
            && (k == 0 || RethrownLeg(leg) ==> leg.Outcome() == pass.outcome)
    decreases k
  {
    hide ForcedPass, AllForced, Added, Traced, BeginEntry;
    var leg := legs[k];
    WordsRoundTrip(Forcing(forced), (forced.stop, forced.parameter));
    ForcedTrace(leg.env, leg.log, leg.frames, leg.bottom, forced, 0);
    ForcedMasks(leg.env, leg.log, leg.frames, leg.bottom, forced);
    if k > 0 {
      ForcedRunKeeps(forced, legs, k - 1);
      assert ForcedStep(legs, k);
    }
  }
}
