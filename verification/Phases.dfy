/** What the search and phase two visit, and when they agree on the handler. */
module Phases {
  import opened Words
  import opened Stack
  import opened Protocol
  import opened Passes

  // ---- The calls a pass makes ----

  /** The exchanges that a sequence of visits leaves in the log. */
  function EventsOf(env: Env, frames: seq<Activation>, visits: seq<Visit>): seq<Event>
    requires |visits| <= |frames|
    decreases |visits|
  {
    if visits == [] then []
    else
      var routine := RoutineOf(env.m, frames[0].info);
      (if visits[0].reply.Replied? && routine.Ok? && routine.value.Some?
       then [Event(CallOf(env, routine.value.value, visits[0].actions, frames[0]), visits[0].reply.answer)] else [])
      + EventsOf(env, frames[1..], visits[1..])
  }

  lemma AskIs(env: Env, log: seq<Event>, a: Activation, actions: int, visit: Visit)
    requires visit.actions == actions && visit.reply == Ask(env, log, a, actions).1
    ensures Ask(env, log, a, actions).0 == log + EventsOf(env, [a], [visit])
  {
    assert EventsOf(env, [a][1..], [visit][1..]) == [];
  }

  lemma EventsCons(env: Env, frames: seq<Activation>, visits: seq<Visit>)
    requires 0 < |visits| <= |frames|
    ensures EventsOf(env, frames, visits)
            == EventsOf(env, [frames[0]], [visits[0]]) + EventsOf(env, frames[1..], visits[1..])
  {
    assert EventsOf(env, [frames[0]][1..], [visits[0]][1..]) == [];
  }

  /** The visits of a pass run through consecutive frames, and the log grows by exactly their exchanges. */
  ghost predicate Recorded(
    env: Env, log: seq<Event>, frames: seq<Activation>, depth: nat, visits: seq<Visit>, after: seq<Event>)
  {
    && |visits| <= |frames|
    && (forall i | 0 <= i < |visits| :: visits[i].depth == depth + i)
    && after == log + EventsOf(env, frames, visits)
  }

  lemma RecordedOne(env: Env, log: seq<Event>, frames: seq<Activation>, depth: nat, visit: Visit)
    requires frames != [] && visit.depth == depth && visit.reply == Ask(env, log, frames[0], visit.actions).1
    ensures Recorded(env, log, frames, depth, [visit], Ask(env, log, frames[0], visit.actions).0)
  {
    hide Ask;
    AskIs(env, log, frames[0], visit.actions, visit);
    EventsCons(env, frames, [visit]);
    assert EventsOf(env, frames[1..], [visit][1..]) == [];
  }

  lemma RecordedCons(
    env: Env, log: seq<Event>, frames: seq<Activation>, depth: nat, visit: Visit, visits: seq<Visit>, after: seq<Event>)
    requires frames != [] && visit.depth == depth && visit.reply == Ask(env, log, frames[0], visit.actions).1
    requires Recorded(env, Ask(env, log, frames[0], visit.actions).0, frames[1..], depth + 1, visits, after)
    ensures Recorded(env, log, frames, depth, [visit] + visits, after)
  {
    hide Ask, EventsOf;
    AskIs(env, log, frames[0], visit.actions, visit);
    EventsCons(env, frames, [visit] + visits);
    assert ([visit] + visits)[1..] == visits;
  }

  // ---- Phase one ----

  /**
   * Every frame in front of the found one was asked with SEARCH and let the exception pass; the found one claimed
   * it.
   */
  lemma {:induction false} SearchVisits(env: Env, log: seq<Event>, frames: seq<Activation>, bottom: Bottom, depth: nat)
    ensures var r := SearchPass(env, log, frames, bottom, depth);
            && Recorded(env, log, frames, depth, r.visits, r.log)
            && (forall i | 0 <= i < |r.visits| :: r.visits[i].actions == ACTION_SEARCH)
            && (forall i | 0 <= i < |r.visits| - 1 :: Passed(r.visits[i].reply))
            && (r.found.Ok? ==>
                  && r.visits != [] && r.found.value.0 == depth + |r.visits| - 1
                  && Claims(r.visits[|r.visits| - 1].reply)
                  && Key(frames[|r.visits| - 1]) == Some(r.found.value.1))
    decreases |frames|
  {
    hide Ask, EventsOf, Recorded, KeyOf;
    if frames == [] {
      assert Recorded(env, log, frames, depth, [], log) by { RecordedNone(env, log, frames, depth); }
    } else {
      var (log', reply) := Ask(env, log, frames[0], ACTION_SEARCH);
      var visit := Visit(depth, ACTION_SEARCH, reply);
      RecordedOne(env, log, frames, depth, visit);
      if Passed(reply) && Advances(frames, bottom) {
        SearchVisits(env, log', frames[1..], bottom, depth + 1);
        var rest := SearchPass(env, log', frames[1..], bottom, depth + 1);
        RecordedCons(env, log, frames, depth, visit, rest.visits, rest.log);
        RecordedLength(env, log', frames[1..], depth + 1, rest.visits, rest.log);
      }
    }
  }

  lemma RecordedNone(env: Env, log: seq<Event>, frames: seq<Activation>, depth: nat)
    ensures Recorded(env, log, frames, depth, [], log)
  {
  }

  lemma RecordedLength(
    env: Env, log: seq<Event>, frames: seq<Activation>, depth: nat, visits: seq<Visit>, after: seq<Event>)
    requires Recorded(env, log, frames, depth, visits, after)
    ensures |visits| <= |frames| && log <= after && forall i | 0 <= i < |visits| :: visits[i].depth == depth + i
  {
  }

  /**
   * Why a search finds nothing: END, which is 5, if and only if every frame let the exception pass and the stack has
   * ended there; anything else is fatal in phase one, which is 3.
   */
  lemma {:induction false} SearchReason(
    env: Env, log: seq<Event>, frames: seq<Activation>, bottom: Bottom, depth: nat)
    ensures var r := SearchPass(env, log, frames, bottom, depth);
            && (r.found.Err? ==> r.found.error in {3, 5})
            && (r.found == Err(5) <==>
                bottom.EndOfStack? && |r.visits| == |frames| && AllPassed(r.visits))
    decreases |frames|
  {
    hide Ask, KeyOf, AllPassed;
    AllPassedNone();
    if frames != [] {
      var (log', reply) := Ask(env, log, frames[0], ACTION_SEARCH);
      if Passed(reply) && Advances(frames, bottom) {
        SearchReason(env, log', frames[1..], bottom, depth + 1);
        AllPassedCons(Visit(depth, ACTION_SEARCH, reply), SearchPass(env, log', frames[1..], bottom, depth + 1).visits);
      } else {
        AllPassedCons(Visit(depth, ACTION_SEARCH, reply), []);
        assert [Visit(depth, ACTION_SEARCH, reply)] == [Visit(depth, ACTION_SEARCH, reply)] + [];
      }
    }
  }

  lemma AllPassedNone()
    ensures AllPassed([])
  {
  }

  predicate AllPassed(visits: seq<Visit>) {
    forall i | 0 <= i < |visits| :: Passed(visits[i].reply)
  }

  lemma AllPassedCons(visit: Visit, visits: seq<Visit>)
    ensures AllPassed([visit] + visits) <==> Passed(visit.reply) && AllPassed(visits)
  {
    hide Passed;
    var all := [visit] + visits;
    assert all[0] == visit && forall i | 0 <= i < |visits| :: all[i + 1] == visits[i];
  }

  /** A raise whose search finds nothing leaves the words alone and returns that reason; otherwise it writes the key. */
  lemma BeginMeans(env: Env, words: (Word, Word), log: seq<Event>, frames: seq<Activation>, bottom: Bottom)
    ensures var searched := SearchPass(env, log, frames, bottom, 0);
            var entry := BeginEntry(env, words, log, frames, bottom);
            && (searched.found.Err? ==>
                  && entry.words == words && entry.passage.log == searched.log
                  && entry.passage.outcome == Returned(searched.found.error))
            && (searched.found.Ok? ==> entry.words == (0, searched.found.value.1))
  {
    hide SearchPass, NormalPass;
  }

  // ---- Phase two ----

  /** Visits carry CLEANUP, and CLEANUP|HANDLER exactly at the handler's key; each but the last was passed. */
  lemma {:induction false} NormalVisits(
    env: Env, log: seq<Event>, frames: seq<Activation>, bottom: Bottom, handler: Word, depth: nat)
    ensures var r := NormalPass(env, log, frames, bottom, handler, depth);
            && Recorded(env, log, frames, depth, r.visits, r.log)
            && |r.visits| <= |frames|
            && (forall i | 0 <= i < |r.visits| :: r.visits[i].actions == NormalActions(frames[i], handler))
            && (forall i | 0 <= i < |r.visits| - 1 :: Passed(r.visits[i].reply) && Key(frames[i]) != Some(handler))
    decreases |frames|
  {
    hide Ask, EventsOf, Recorded, KeyOf, NormalActions, LeaveFrame, Installs;
    RecordedNone(env, log, frames, depth);
    if frames != [] && Key(frames[0]) != None {
      var actions := NormalActions(frames[0], handler);
      var (log', reply) := Ask(env, log, frames[0], actions);
      var visit := Visit(depth, actions, reply);
      RecordedOne(env, log, frames, depth, visit);
      if !Installs(reply) && Passed(reply) && Key(frames[0]) != Some(handler) && Advances(frames, bottom) {
        NormalVisits(env, log', frames[1..], bottom, handler, depth + 1);
        var rest := NormalPass(env, log', frames[1..], bottom, handler, depth + 1);
        RecordedCons(env, log, frames, depth, visit, rest.visits, rest.log);
      }
    }
  }

  /** A landing pad is installed at the last visited frame, which asked for it; otherwise the pass is fatal. */
  lemma {:induction false} NormalOutcome(
    env: Env, log: seq<Event>, frames: seq<Activation>, bottom: Bottom, handler: Word, depth: nat)
    ensures var r := NormalPass(env, log, frames, bottom, handler, depth);
            && (r.outcome == Returned(FATAL2) || r.outcome.Restored?)
            && |r.visits| <= |frames|
            && (r.outcome.Restored? ==>
                  && r.visits != []
                  && r.outcome.depth == depth + |r.visits| - 1
                  && Installs(r.visits[|r.visits| - 1].reply)
                  && InstallAt(frames[|r.visits| - 1], r.visits[|r.visits| - 1].reply.answer.writes)
                     == Ok(r.outcome.registers))
            && (forall i | 0 <= i < |r.visits| - 1 :: !Installs(r.visits[i].reply))
    decreases |frames|
  {
    hide Ask, KeyOf, NormalActions, InstallAt;
    if frames != [] && Key(frames[0]) != None {
      var (log', reply) := Ask(env, log, frames[0], NormalActions(frames[0], handler));
      if !Installs(reply) && Passed(reply) && Key(frames[0]) != Some(handler) && Advances(frames, bottom) {
        NormalOutcome(env, log', frames[1..], bottom, handler, depth + 1);
      }
    }
  }

  /** Phase two looks no further than the first frame with the handler's key, and marks exactly that one. */
  lemma SelectsFirstKey(
    env: Env, log: seq<Event>, frames: seq<Activation>, bottom: Bottom, handler: Word, first: nat)
    requires first < |frames| && Key(frames[first]) == Some(handler)
    requires forall i | 0 <= i < first :: Key(frames[i]) != Some(handler)
    ensures var r := NormalPass(env, log, frames, bottom, handler, 0);
            && Recorded(env, log, frames, 0, r.visits, r.log)
            && |r.visits| <= first + 1
            && forall i | 0 <= i < |r.visits| ::
                 r.visits[i].depth == i
                 && r.visits[i].actions == if i == first then BitOr(ACTION_CLEANUP, ACTION_HANDLER) else ACTION_CLEANUP
  {
    hide KeyOf, BitOr;
    NormalVisits(env, log, frames, bottom, handler, 0);
    hide NormalPass, Recorded;
    var r := NormalPass(env, log, frames, bottom, handler, 0);
    RecordedLength(env, log, frames, 0, r.visits, r.log);
  }

  /**
   * The phases agree: if the search from some root picks a frame in front of which none has its key, phase two from
   * the same root sends CLEANUP to every frame it visits in front of that one, CLEANUP|HANDLER to that one, and
   * nothing to any older frame.
   */
  lemma TwoPhaseAgreement(env: Env, log: seq<Event>, log2: seq<Event>, frames: seq<Activation>, bottom: Bottom)
    requires var found := SearchPass(env, log, frames, bottom, 0).found;
             found.Ok? && Foremost(frames, found.value.0, found.value.1)
    ensures var (h, key) := SearchPass(env, log, frames, bottom, 0).found.value;
            var r := NormalPass(env, log2, frames, bottom, key, 0);
            && h < |frames| && Key(frames[h]) == Some(key)
            && Recorded(env, log2, frames, 0, r.visits, r.log)
            && |r.visits| <= h + 1
            && forall i | 0 <= i < |r.visits| ::
                 r.visits[i].depth == i
                 && r.visits[i].actions == if i == h then BitOr(ACTION_CLEANUP, ACTION_HANDLER) else ACTION_CLEANUP
  {
    hide KeyOf, NormalPass, Recorded, BitOr;
    SearchVisits(env, log, frames, bottom, 0);
    var searched := SearchPass(env, log, frames, bottom, 0);
    RecordedLength(env, log, frames, 0, searched.visits, searched.log);
    var (h, key) := searched.found.value;
    hide SearchPass;
    SelectsFirstKey(env, log2, frames, bottom, key, h);
  }

  /** Whatever is answered, phase two visits no frame older than frame `h`, and marks frame `h` alone as the handler. */
  ghost predicate MarksOnly(
    env: Env, respond: Respond, log: seq<Event>, frames: seq<Activation>, bottom: Bottom, handler: Word, h: nat)
  {
    var visits := NormalPass(env.(respond := respond), log, frames, bottom, handler, 0).visits;
    && |visits| <= h + 1
    && forall i | 0 <= i < |visits| ::
         visits[i].actions == if i == h then BitOr(ACTION_CLEANUP, ACTION_HANDLER) else ACTION_CLEANUP
  }

  /** A younger frame with the handler's key stands where phase two can get to: behind frames with keys only. */
  predicate Impostor(frames: seq<Activation>, handler: Word, g: nat)
    requires g < |frames|
  {
    Key(frames[g]) == Some(handler) && forall i | 0 <= i < g :: Key(frames[i]).Some?
  }

  /** The frame has no personality, or one that can be called. */
  predicate Callable(env: Env, a: Activation) {
    RoutineOf(env.m, a.info).Ok?
  }

  lemma {:induction false} SearchedFrames(
    env: Env, log: seq<Event>, frames: seq<Activation>, bottom: Bottom, depth: nat)
    ensures var found := SearchPass(env, log, frames, bottom, depth).found;
            found.Ok? ==>
              && depth <= found.value.0 < depth + |frames|
              && Key(frames[found.value.0 - depth]) == Some(found.value.1)
              && forall i | 0 <= i <= found.value.0 - depth :: Callable(env, frames[i])
    decreases |frames|
  {
    hide KeyOf, RoutineOf, Claims, Passed;
    if frames != [] {
      AskedIsCallable(env, log, frames[0], ACTION_SEARCH);
      hide Ask;
      var (log', reply) := Ask(env, log, frames[0], ACTION_SEARCH);
      if Passed(reply) && Advances(frames, bottom) {
        SearchedFrames(env, log', frames[1..], bottom, depth + 1);
        assert forall i | 1 <= i < |frames| :: frames[i] == frames[1..][i - 1];
      }
    }
  }

  lemma AskedIsCallable(env: Env, log: seq<Event>, a: Activation, actions: int)
    ensures var reply := Ask(env, log, a, actions).1;
            Passed(reply) || Claims(reply) ==> Callable(env, a)
  {
    hide RoutineOf;
  }

  /** Answers that always let the exception go on. */
  function LetPass(log: seq<Event>, call: Call): Answer {
    Answer(CONTINUE, [])
  }

  /** With those answers phase two gets as far as the first frame with the handler's key, and marks it. */
  lemma {:induction false} ReachesImpostor(
    env: Env, log: seq<Event>, frames: seq<Activation>, bottom: Bottom, handler: Word, depth: nat, g: nat)
    requires g < |frames| - 1 && Impostor(frames, handler, g)
    requires forall i | 0 <= i < g :: Key(frames[i]) != Some(handler)
    requires forall i | 0 <= i <= g :: Callable(env, frames[i])
    ensures var visits := NormalPass(env.(respond := LetPass), log, frames, bottom, handler, depth).visits;
            g < |visits| && visits[g].actions == BitOr(ACTION_CLEANUP, ACTION_HANDLER)
    decreases g
  {
    hide KeyOf, BitOr;
    var calm := env.(respond := LetPass);
    var (log', reply) := Ask(calm, log, frames[0], NormalActions(frames[0], handler));
    CalmPasses(env, log, frames[0], NormalActions(frames[0], handler));
    hide Ask, Callable;
    if g > 0 {
      var rest := frames[1..];
      assert forall i | 1 <= i < |frames| :: frames[i] == rest[i - 1];
      ReachesImpostor(env, log', rest, bottom, handler, depth + 1, g - 1);
    }
  }

  lemma CalmPasses(env: Env, log: seq<Event>, a: Activation, actions: int)
    requires Callable(env, a)
    ensures Passed(Ask(env.(respond := LetPass), log, a, actions).1)
    ensures !Installs(Ask(env.(respond := LetPass), log, a, actions).1)
  {
    hide RoutineOf;
  }

  lemma FirstOf(frames: seq<Activation>, handler: Word, g: nat) returns (first: nat)
    requires g < |frames| && Impostor(frames, handler, g)
    ensures first <= g && Impostor(frames, handler, first)
    ensures forall i | 0 <= i < first :: Key(frames[i]) != Some(handler)
  {
    hide KeyOf;
    first := 0;
    while Key(frames[first]) != Some(handler)
      invariant first <= g && forall i | 0 <= i < first :: Key(frames[i]) != Some(handler)
      decreases g - first
    {
      first := first + 1;
    }
  }

  /**
   * Without distinct keys: whatever is answered, phase two marks exactly the frame that the search picked and
   * visits none behind it, if and only if no younger frame that phase two can get to has the key of that frame.
   */
  lemma AgreementIffFirst(env: Env, log: seq<Event>, frames: seq<Activation>, bottom: Bottom)
    requires SearchPass(env, log, frames, bottom, 0).found.Ok?
    ensures var (h, key) := SearchPass(env, log, frames, bottom, 0).found.value;
            h < |frames|
            && ((forall respond: Respond, log2: seq<Event> :: MarksOnly(env, respond, log2, frames, bottom, key, h))
                <==> forall g | 0 <= g < h :: !Impostor(frames, key, g))
  {
    hide SearchPass, NormalPass, KeyOf, MarksOnly, Impostor;
    SearchedFrames(env, log, frames, bottom, 0);
    var (h, key) := SearchPass(env, log, frames, bottom, 0).found.value;
    if g :| 0 <= g < h && Impostor(frames, key, g) {
      var first := FirstOf(frames, key, g);
      Disagrees(env, frames, bottom, key, h, first);
    } else {
      forall respond: Respond, log2: seq<Event> ensures MarksOnly(env, respond, log2, frames, bottom, key, h) {
        Agrees(env, respond, log2, frames, bottom, key, h);
      }
    }
  }

  lemma Disagrees(env: Env, frames: seq<Activation>, bottom: Bottom, key: Word, h: nat, g: nat)
    requires g < h < |frames| && Impostor(frames, key, g) && forall i | 0 <= i < g :: Key(frames[i]) != Some(key)
    requires forall i | 0 <= i <= h :: Callable(env, frames[i])
    ensures !MarksOnly(env, LetPass, [], frames, bottom, key, h)
  {
    hide NormalPass, Impostor, KeyOf, Callable;
    ReachesImpostor(env, [], frames, bottom, key, 0, g);
    Masks();
  }

  lemma Agrees(env: Env, respond: Respond, log: seq<Event>, frames: seq<Activation>, bottom: Bottom, key: Word, h: nat)
    requires h < |frames| && Key(frames[h]) == Some(key) && forall g | 0 <= g < h :: !Impostor(frames, key, g)
    ensures MarksOnly(env, respond, log, frames, bottom, key, h)
  {
    hide KeyOf, BitOr, NormalPass;
    var calm := env.(respond := respond);
    NormalVisits(calm, log, frames, bottom, key, 0);
    VisitedHaveKeys(calm, log, frames, bottom, key, 0);
    var visits := NormalPass(calm, log, frames, bottom, key, 0).visits;
    forall i | 0 <= i < |visits| && i < h ensures Key(frames[i]) != Some(key) {
      assert !Impostor(frames, key, i);
    }
  }

  lemma {:induction false} VisitedHaveKeys(
    env: Env, log: seq<Event>, frames: seq<Activation>, bottom: Bottom, handler: Word, depth: nat)
    ensures var visits := NormalPass(env, log, frames, bottom, handler, depth).visits;
            |visits| <= |frames| && forall i | 0 <= i < |visits| :: Key(frames[i]).Some?
    decreases |frames|
  {
    hide Ask, KeyOf, NormalActions;
    if frames != [] && Key(frames[0]).Some? {
      var (log', reply) := Ask(env, log, frames[0], NormalActions(frames[0], handler));
      if !Installs(reply) && Passed(reply) && Key(frames[0]) != Some(handler) && Advances(frames, bottom) {
        VisitedHaveKeys(env, log', frames[1..], bottom, handler, depth + 1);
        assert forall i | 1 <= i < |frames| :: frames[i] == frames[1..][i - 1];
      }
    }
  }
}
