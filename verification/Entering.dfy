/** Printed cleanups are entered: what was printed for a call site is where a propagation lands. */
module Entering {
  import opened Words
  import opened Stack
  import opened Protocol
  import opened Passes
  import opened Delivery
  import opened Runs
  import opened EndToEnd
  import ActionRecords
  import PrintedFrames
  import PrintedTables
  import RoundTrip
  import RustScan

  /** What a table was printed from. */
  datatype Print = Print(
    layout: RoundTrip.Layout, entries: seq<RoundTrip.Entry>, records: seq<ActionRecords.ActionRecord>,
    after: seq<Byte>)

  /** The C++ frame stands at an entry that was printed with the landing pad and with cleanup work. */
  ghost predicate PrintedCleanup(
    env: Env, source: Personalities.Source, languages: NonZero -> Language, a: Activation, p: Print, pad: int)
  {
    && RoutineOf(env.m, a.info).Ok? && RoutineOf(env.m, a.info).value.Some?
    && languages(RoutineOf(env.m, a.info).value.value).Cxx?
    && PrintedFrames.Printed(source, FrameView(env, a), p.layout, p.entries, p.records, p.after)
    && exists i: nat :: WorkAt(source, FrameView(env, a), p, i, pad)
  }

  /** Entry `i` covers the call site, with this landing pad and cleanup work. */
  ghost predicate WorkAt(source: Personalities.Source, view: View, p: Print, i: nat, pad: int) {
    && view.lsda.Some? && view.start <= view.Site()
    && PrintedFrames.Covering(source, view, p.layout, p.entries, i, pad)
    && p.entries[i].landing != 0 && HasWork(p.entries[i], p.records)
  }

  /** No actions at all, or a cleanup record along the links. */
  ghost predicate HasWork(e: RoundTrip.Entry, records: seq<ActionRecords.ActionRecord>) {
    || e.action == 0
    || (ActionRecords.LinksInside(records) && exists j: nat, n: nat :: WorkAlong(e, records, j, n))
  }

  predicate WorkAlong(e: RoundTrip.Entry, records: seq<ActionRecords.ActionRecord>, j: nat, n: nat)
    requires ActionRecords.LinksInside(records)
  {
    && PrintedTables.Names(e, records, j)
    && ActionRecords.Follow(records, j, n).Some? && 0 in ActionRecords.Follow(records, j, n).value
  }

  /** Such a frame decides on exactly the printed pad, in normal and in forced cleanup. */
  lemma DecidesOnPrinted(
    env: Env, source: Personalities.Source, languages: NonZero -> Language, a: Activation, p: Print, pad: int,
    forced: bool)
    requires PrintedCleanup(env, source, languages, a, p, pad)
    ensures 0 < pad < WORD
    ensures DecisionOf(env, PoliciesOf(source, languages), a, Phase.Cleanup(forced)) == Enters(pad, 0)
  {
    hide RoutineOf, FrameView, PrintedFrames.Printed, Personalities.CxxPolicy, ActionRecords.Follow,
         PrintedTables.Names, PrintedTables.FirstAt;
    var view := FrameView(env, a);
    var language := languages(RoutineOf(env.m, a.info).value.value);
    PrintedFrames.CxxFrameCleans(source, view, p.layout, p.entries, p.records, p.after, language.runtime, env.exception,
                                 env.class_);
    var i: nat :| WorkAt(source, view, p, i, pad);
    if p.entries[i].action != 0 {
      var j: nat, n: nat :| WorkAlong(p.entries[i], p.records, j, n);
    }
  }

  /**
   * A printed C++ cleanup in front of the handler is entered: in every entry of a run that reaches its frame, that is
   * whose younger frames have nothing to do, the propagation leaves for the printed pad with selector zero.
   */
  lemma PrintedCleanupEntered(
    source: Personalities.Source, languages: NonZero -> Language, legs: seq<Leg>, k: nat, i: nat, p: Print, pad: int)
    requires Run(legs) && k < |legs|
    requires Typed(legs[0].env, PoliciesOf(source, languages)) && Typed(legs[k].env, PoliciesOf(source, languages))
    requires var h := legs[0].Found().value.0;
             h < |legs[0].frames| && Repeating(legs[0].env, source, languages, legs[0].frames[h])
    requires Grounded(legs[k].env.m, legs[k].frames, legs[k].bottom)
    requires k == 0 || Usable(legs[k].env, source, languages, legs[k].frames[0])
    requires i < |legs[k].frames| && legs[k].base + i < legs[0].Found().value.0
    requires PrintedCleanup(legs[k].env, source, languages, legs[k].frames[i], p, pad)
    ensures legs[k].Outcome().Restored? && legs[k].Outcome().depth <= i
    ensures AllGoOn(legs[k].env, PoliciesOf(source, languages), legs[k].frames, i,
                    legs[0].Found().value.0 - legs[k].base)
            ==> legs[k].Outcome().depth == i
    ensures legs[k].Outcome().depth == i ==> Enters0(legs[k].Outcome().registers, pad)
  {
    hide Run, Typed, Repeating, Grounded, Usable, PrintedCleanup, DecisionOf, SearchPass, PoliciesOf, Delivered,
         AllGoOn, Enters0;
    LaterFrames(legs, k);
    var policies, leg := PoliciesOf(source, languages), legs[k];
    var h := legs[0].Found().value.0 - leg.base;
    MixedStackDelivers(source, languages, legs, k);
    DecidesOnPrinted(leg.env, source, languages, leg.frames[i], p, pad, false);
    LandsAtFirst(leg.env, policies, leg.frames, h, leg.Outcome(), i, pad);
  }

  /** The landing pad in the return address column, and selector zero. */
  predicate Enters0(registers: Registers.Image, pad: int) {
    16 in registers && registers[16] == pad && 1 in registers && registers[1] == 0
  }

  lemma LandsAtFirst(
    env: Env, policies: Policies, frames: seq<Activation>, h: nat, outcome: Outcome, i: nat, pad: NonZero)
    requires Delivered(env, policies, frames, h, 0, outcome) && i < h && i < |frames|
    requires DecisionOf(env, policies, frames[i], Phase.Cleanup(false)) == Enters(pad, 0)
    ensures outcome.Restored? && outcome.depth <= i
    ensures AllGoOn(env, policies, frames, i, h) ==> outcome.depth == i
    ensures outcome.depth == i ==> Enters0(outcome.registers, pad)
  {
    hide DecisionOf;
  }

  /** In forced unwinding too: the first frame that does not let the pass go on, if printed so, is entered there. */
  lemma PrintedCleanupForced(
    source: Personalities.Source, languages: NonZero -> Language, env: Env, log: seq<Event>, frames: seq<Activation>,
    bottom: Bottom, forced: Forced, i: nat, p: Print, pad: int)
    requires Typed(env, PoliciesOf(source, languages)) && StopsAccept(env.respond)
    requires GroundedOrEmpty(env.m, frames, bottom) && i < |frames|
    requires PrintedCleanup(env, source, languages, frames[i], p, pad)
    requires forall j | 0 <= j < i ::
               DecisionOf(env, PoliciesOf(source, languages), frames[j], Phase.Cleanup(true)).GoesOn?
    ensures var outcome := ForcedPass(env, log, frames, bottom, forced, 0).outcome;
            outcome.Restored? && outcome.depth == i && Enters0(outcome.registers, pad)
  {
    hide Typed, StopsAccept, GroundedOrEmpty, PrintedCleanup, DecisionOf, PoliciesOf, ForcedPass;
    DecidesOnPrinted(env, source, languages, frames[i], p, pad, true);
    ForcedPassEnds(env, PoliciesOf(source, languages), log, frames, bottom, forced);
  }
}
