/**
 * What a row of unwind rules means for the caller's registers, said of memory, expressions and the callee alone
 * (section 6.4.1 of DWARF Version 5), and that unwinding undoes the prologue of a function.
 */
module RowMeaning {
  import opened Words
  import opened Registers
  import opened CallFrame

  /** Bytes in which a register is saved, by DWARF number: eight, but four for MXCSR and two for FCW. */
  predicate SavedIn(register: int, size: nat) {
    (0 <= register <= 16 && size == 8) || (register == 64 && size == 4) || (register == 65 && size == 2)
  }

  predicate IsModeled(register: int) {
    0 <= register <= 16 || register == 64 || register == 65
  }

  /** The canonical frame address that the row defines on the callee. */
  predicate CfaIs(m: Machine, row: Row, callee: Image, cfa: Word) {
    match row.cfa
    case RegisterAndOffset(register, offset) =>
      IsModeled(register) && register in callee && cfa == (callee[register] + offset) % WORD
    case CfaExpression(id) => m.expression(id, callee, None) == Ok(cfa)
  }

  /** The word that memory holds for a register at an address. */
  predicate InMemory(m: Machine, register: int, address: Word, value: Option<Word>) {
    value.Some? && (SavedIn(register, 8) ==> m.memory(address, 8) == value)
    && (SavedIn(register, 4) ==> m.memory(address, 4) == value)
    && (SavedIn(register, 2) ==> m.memory(address, 2) == value)
  }

  /** The rule gives the register this value in the caller, or makes it unavailable for None. */
  predicate RuleGives(m: Machine, cfa: Word, callee: Image, register: int, rule: Rule, value: Option<Word>) {
    && IsModeled(register)
    && match rule
       case Undefined => value == None
       case SameValue => register in callee && value == Some(callee[register])
       case Offset(n) => InMemory(m, register, (cfa + n) % WORD, value)
       case ValOffset(n) => value == Some((cfa + n) % WORD)
       case Register(source) => IsModeled(source) && source in callee && value == Some(callee[source])
       case Expression(id) =>
         var address := m.expression(id, callee, Some(cfa)); address.Ok? && InMemory(m, register, address.value, value)
       case ValExpression(id) => value.Some? && m.expression(id, callee, Some(cfa)) == Ok(value.value)
       case Architectural => false
       case Constant(v) => value == Some(v)
  }

  lemma RuleMeans(m: Machine, cfa: Word, callee: Image, register: int, rule: Rule, value: Option<Word>)
    ensures RuleValue(m, cfa, callee, register, rule) == Ok(value) <==> RuleGives(m, cfa, callee, register, rule, value)
  {
  }

  lemma CfaMeans(m: Machine, row: Row, callee: Image, cfa: Word)
    ensures CfaOf(m, row, callee) == Ok(cfa) <==> CfaIs(m, row, callee, cfa)
  {
  }

  /** Every rule gives its register something. */
  ghost predicate AllGive(m: Machine, cfa: Word, callee: Image, rules: seq<(int, Rule)>) {
    forall i | 0 <= i < |rules| :: Gives(m, cfa, callee, rules[i])
  }

  ghost predicate Gives(m: Machine, cfa: Word, callee: Image, rule: (int, Rule)) {
    exists value :: RuleGives(m, cfa, callee, rule.0, rule.1, value)
  }

  /** No rule behind rule `i` names the same register. */
  predicate IsLast(rules: seq<(int, Rule)>, i: nat) {
    i < |rules| && forall j | i < j < |rules| :: rules[j].0 != rules[i].0
  }

  predicate Named(rules: seq<(int, Rule)>, register: int) {
    exists i | 0 <= i < |rules| :: rules[i].0 == register
  }

  /** The caller's registers: what the last rule of each gives, and the defaults for those without a rule. */
  ghost predicate CallerIs(m: Machine, cfa: Word, callee: Image, rules: seq<(int, Rule)>, caller: Image) {
    && (forall i | 0 <= i < |rules| && IsLast(rules, i) ::
          RuleGives(m, cfa, callee, rules[i].0, rules[i].1, At(caller, rules[i].0)))
    && (forall register: int | !Named(rules, register) ::
          At(caller, register)
          == if register == 16 then None else if register == 7 then Some(cfa) else At(callee, register))
  }

  /**
   * The caller is rebuilt if and only if the row defines a CFA and every rule gives something, and then its
   * registers are exactly those.
   */
  lemma CallerMeans(m: Machine, row: Row, callee: Image)
    ensures CallerOf(m, row, callee).Ok? <==>
            exists cfa: Word :: CfaIs(m, row, callee, cfa) && AllGive(m, cfa, callee, row.rules)
    ensures CallerOf(m, row, callee).Ok? ==>
              exists cfa: Word :: CfaIs(m, row, callee, cfa)
                            && CallerIs(m, cfa, callee, row.rules, CallerOf(m, row, callee).value)
  {
    hide RuleValue, CfaOf, CallerOf, LastRule, CfaIs, RuleGives;
    CallerIsSimultaneous(m, row, callee);
    forall cfa: Word ensures CfaOf(m, row, callee) == Ok(cfa) <==> CfaIs(m, row, callee, cfa) {
      CfaMeans(m, row, callee, cfa);
    }
    var cfa := CfaOf(m, row, callee);
    if cfa.Ok? {
      forall i | 0 <= i < |row.rules|
        ensures RuleValue(m, cfa.value, callee, row.rules[i].0, row.rules[i].1).Ok?
                <==> Gives(m, cfa.value, callee, row.rules[i])
      {
        GivesMeans(m, cfa.value, callee, row.rules[i]);
      }
      if CallerOf(m, row, callee).Ok? {
        AssignedMeans(m, cfa.value, callee, row.rules, CallerOf(m, row, callee).value);
      }
    }
  }

  lemma GivesMeans(m: Machine, cfa: Word, callee: Image, rule: (int, Rule))
    ensures RuleValue(m, cfa, callee, rule.0, rule.1).Ok? <==> Gives(m, cfa, callee, rule)
  {
    hide RuleValue, RuleGives;
    var r := RuleValue(m, cfa, callee, rule.0, rule.1);
    forall value ensures r == Ok(value) <==> RuleGives(m, cfa, callee, rule.0, rule.1, value) {
      RuleMeans(m, cfa, callee, rule.0, rule.1, value);
    }
  }

  lemma AssignedMeans(m: Machine, cfa: Word, callee: Image, rules: seq<(int, Rule)>, caller: Image)
    requires forall i | 0 <= i < |rules| :: RuleValue(m, cfa, callee, rules[i].0, rules[i].1).Ok?
    requires forall x :: At(caller, x) == Assigned(m, cfa, callee, rules, x, WithoutRule(cfa, callee, x))
    ensures CallerIs(m, cfa, callee, rules, caller)
  {
    hide RuleValue, RuleGives, At;
    forall i | 0 <= i < |rules| && IsLast(rules, i)
      ensures RuleGives(m, cfa, callee, rules[i].0, rules[i].1, At(caller, rules[i].0))
    {
      var last := LastRule(rules, rules[i].0);
      assert last == Some(i);
      RuleMeans(m, cfa, callee, rules[i].0, rules[i].1, At(caller, rules[i].0));
    }
  }

  // ---- Failures ----

  predicate ReadFails(callee: Image, register: int, error: UnwindError) {
    if !IsModeled(register) then error == BadRegister(register)
    else register !in callee && error == Unavailable(register)
  }

  predicate MemoryFails(m: Machine, register: int, address: Word, error: UnwindError) {
    if !IsModeled(register) then error == BadRegister(register)
    else
      && error == Memory
      && forall size | size in {2, 4, 8} && SavedIn(register, size) :: m.memory(address, size) == None
  }

  /** Why a rule gives nothing; a register that is not modeled cannot be given anything. */
  predicate RuleFails(m: Machine, cfa: Word, callee: Image, register: int, rule: Rule, error: UnwindError) {
    var refused := !IsModeled(register) && error == BadRegister(register);
    match rule
    case Undefined => refused
    case SameValue => ReadFails(callee, register, error)
    case Offset(n) => MemoryFails(m, register, (cfa + n) % WORD, error)
    case ValOffset(_) => refused
    case Register(source) => if IsModeled(source) && source in callee then refused else ReadFails(callee, source, error)
    case Expression(id) =>
      (match m.expression(id, callee, Some(cfa))
       case Err(e) => error == e
       case Ok(address) => MemoryFails(m, register, address, error))
    case ValExpression(id) =>
      (match m.expression(id, callee, Some(cfa)) case Err(e) => error == e case Ok(_) => refused)
    case Architectural => error == UnwindError.Expression
    case Constant(_) => refused
  }

  predicate CfaFails(m: Machine, row: Row, callee: Image, error: UnwindError) {
    match row.cfa
    case RegisterAndOffset(register, _) => ReadFails(callee, register, error)
    case CfaExpression(id) => m.expression(id, callee, None) == Err(error)
  }

  lemma RuleErrs(m: Machine, cfa: Word, callee: Image, register: int, rule: Rule, error: UnwindError)
    ensures RuleValue(m, cfa, callee, register, rule) == Err(error)
            <==> RuleFails(m, cfa, callee, register, rule, error)
  {
  }

  lemma CfaErrs(m: Machine, row: Row, callee: Image, error: UnwindError)
    ensures CfaOf(m, row, callee) == Err(error) <==> CfaFails(m, row, callee, error)
  {
  }

  /** Rule `i` is the first that gives nothing. */
  ghost predicate FirstToFail(
    m: Machine, cfa: Word, callee: Image, rules: seq<(int, Rule)>, i: nat, error: UnwindError)
  {
    && i < |rules| && RuleFails(m, cfa, callee, rules[i].0, rules[i].1, error)
    && forall j | 0 <= j < i :: Gives(m, cfa, callee, rules[j])
  }

  lemma {:induction false} RulesErr(
    m: Machine, cfa: Word, callee: Image, rules: seq<(int, Rule)>, caller: Image, error: UnwindError)
    ensures ApplyRules(m, cfa, callee, rules, caller) == Err(error)
            <==> exists i: nat :: FirstToFail(m, cfa, callee, rules, i, error)
    decreases |rules|
  {
    hide RuleValue, RuleFails, Gives;
    if rules != [] {
      RuleErrs(m, cfa, callee, rules[0].0, rules[0].1, error);
      GivesMeans(m, cfa, callee, rules[0]);
      var first := RuleValue(m, cfa, callee, rules[0].0, rules[0].1);
      var rest := rules[1..];
      if first.Err? {
        assert first == Err(error) ==> FirstToFail(m, cfa, callee, rules, 0, error);
      } else {
        RulesErr(m, cfa, callee, rest, Put(caller, rules[0].0, first.value), error);
        if i: nat :| FirstToFail(m, cfa, callee, rest, i, error) {
          assert FirstToFail(m, cfa, callee, rules, i + 1, error);
        }
        if i: nat :| FirstToFail(m, cfa, callee, rules, i, error) {
          FirstIsLater(m, cfa, callee, rules, i, error);
        }
      }
    }
  }

  lemma FirstIsLater(m: Machine, cfa: Word, callee: Image, rules: seq<(int, Rule)>, i: nat, error: UnwindError)
    requires FirstToFail(m, cfa, callee, rules, i, error) && Gives(m, cfa, callee, rules[0])
    ensures i > 0 && FirstToFail(m, cfa, callee, rules[1..], i - 1, error)
  {
    hide RuleValue, RuleFails, Gives;
    RuleErrs(m, cfa, callee, rules[0].0, rules[0].1, error);
    GivesMeans(m, cfa, callee, rules[0]);
  }

  /** The caller cannot be rebuilt exactly for the reason of the CFA, or else of the first rule that gives nothing. */
  lemma CallerErrs(m: Machine, row: Row, callee: Image, error: UnwindError)
    ensures CallerOf(m, row, callee) == Err(error) <==>
            || CfaFails(m, row, callee, error)
            || exists cfa: Word, i: nat ::
                 CfaIs(m, row, callee, cfa) && FirstToFail(m, cfa, callee, row.rules, i, error)
  {
    hide RuleValue, CfaOf, CfaIs, CfaFails, FirstToFail, ApplyRules;
    CfaErrs(m, row, callee, error);
    forall cfa: Word ensures CfaOf(m, row, callee) == Ok(cfa) <==> CfaIs(m, row, callee, cfa) {
      CfaMeans(m, row, callee, cfa);
    }
    var cfa := CfaOf(m, row, callee);
    if cfa.Ok? {
      RulesErr(m, cfa.value, callee, row.rules, callee[RSP := cfa.value] - {RA}, error);
      if i: nat :| FirstToFail(m, cfa.value, callee, row.rules, i, error) {
        assert CfaIs(m, row, callee, cfa.value) && FirstToFail(m, cfa.value, callee, row.rules, i, error);
      }
    }
  }

  // ---- Prologues ----

  /** Rules for registers pushed one after the other, the first right below the return address. */
  function PushRules(pushed: seq<int>): (r: seq<(int, Rule)>)
    requires |pushed| < 100
    ensures |r| == |pushed| + 1 && r[0] == (16, Offset(-8))
    ensures forall i | 0 <= i < |pushed| :: r[i + 1] == (pushed[i], Offset(-16 - 8 * i))
  {
    [(16, Offset(-8))] + seq(|pushed|, i requires 0 <= i < |pushed| => (pushed[i], Offset(-16 - 8 * i)))
  }

  /** Distinct general registers other than the stack pointer. */
  predicate Pushable(pushed: seq<int>) {
    && |pushed| < 100
    && (forall i | 0 <= i < |pushed| :: 0 <= pushed[i] < 16 && pushed[i] != 7)
    && forall i, j | 0 <= i < j < |pushed| :: pushed[i] != pushed[j]
  }

  /**
   * The callee after its prologue: a call has stored the return address below the stack pointer `sp` of the caller,
   * the prologue has stored the pushed registers below that, and the other registers are as in the caller.
   */
  predicate AfterPrologue(m: Machine, caller: Image, sp: Word, ra: Word, pushed: seq<int>, callee: Image) {
    && m.memory((sp - 8) % WORD, 8) == Some(ra)
    && (forall i | 0 <= i < |pushed| ::
          pushed[i] in caller && m.memory((sp - 16 - 8 * i) % WORD, 8) == Some(caller[pushed[i]]))
    && (forall x | x in caller && x !in pushed && x != 7 && x != 16 :: x in callee && callee[x] == caller[x])
    && (forall x | x in callee && x !in pushed && x != 7 && x != 16 :: x in caller)
  }

  /** The row counts the CFA from the stack pointer, or from RBP once that is the frame pointer. */
  predicate FindsFrame(row: Row, callee: Image, sp: Word, pushed: seq<int>)
    requires |pushed| < 100
  {
    || (row.cfa == RegisterAndOffset(7, 8 + 8 * |pushed|)
        && 7 in callee && callee[7] == (sp - 8 - 8 * |pushed|) % WORD)
    || (row.cfa == RegisterAndOffset(6, 16) && 6 in callee && callee[6] == (sp - 16) % WORD)
  }

  lemma BackUp(sp: Word, n: int)
    ensures ((sp - n) % WORD + n) % WORD == sp
  {
    var q := (sp - n) / WORD;
    var r := (sp - n) % WORD;
    assert r + n == sp - q * WORD;
    ModIs(r + n, -q, sp);
  }

  /** Unwinding undoes the prologue: the caller's registers are those before the call, with the return address. */
  lemma UnwindsPrologue(m: Machine, row: Row, caller: Image, sp: Word, ra: Word, pushed: seq<int>, callee: Image)
    requires Pushable(pushed) && row.rules == PushRules(pushed)
    requires AfterPrologue(m, caller, sp, ra, pushed, callee) && FindsFrame(row, callee, sp, pushed)
    ensures CallerOf(m, row, callee) == Ok(caller[7 := sp][16 := ra])
  {
    hide CallerOf, PushRules;
    var cfa := sp;
    assert CfaIs(m, row, callee, sp) by {
      BackUp(sp, 8 + 8 * |pushed|);
      BackUp(sp, 16);
    }
    forall i | 0 <= i < |row.rules| ensures Gives(m, sp, callee, row.rules[i]) {
      PushGives(m, caller, sp, ra, pushed, callee, i);
    }
    CallerMeans(m, row, callee);
    var r := CallerOf(m, row, callee).value;
    var other :| CfaIs(m, row, callee, other) && CallerIs(m, other, callee, row.rules, r);
    assert other == sp;
    forall x ensures At(r, x) == At(caller[7 := sp][16 := ra], x) {
      PushRestores(m, caller, sp, ra, pushed, callee, r, x);
    }
    SameImage(r, caller[7 := sp][16 := ra]);
  }

  lemma PushGives(m: Machine, caller: Image, sp: Word, ra: Word, pushed: seq<int>, callee: Image, i: nat)
    requires Pushable(pushed) && AfterPrologue(m, caller, sp, ra, pushed, callee) && i <= |pushed|
    ensures Gives(m, sp, callee, PushRules(pushed)[i])
  {
    hide PushRules;
    var rule := PushRules(pushed)[i];
    var value := if i == 0 then Some(ra) else Some(caller[pushed[i - 1]]);
    assert RuleGives(m, sp, callee, rule.0, rule.1, value);
  }

  lemma PushRestores(
    m: Machine, caller: Image, sp: Word, ra: Word, pushed: seq<int>, callee: Image, r: Image, x: int)
    requires Pushable(pushed) && AfterPrologue(m, caller, sp, ra, pushed, callee)
    requires CallerIs(m, sp, callee, PushRules(pushed), r)
    ensures At(r, x) == At(caller[7 := sp][16 := ra], x)
  {
    hide PushRules, CallerIs, AfterPrologue, Pushable;
    if x == 16 {
      RestoresAddress(m, caller, sp, ra, pushed, callee, r);
    } else if x in pushed {
      var i :| 0 <= i < |pushed| && pushed[i] == x;
      RestoresPushed(m, caller, sp, ra, pushed, callee, r, i);
    } else {
      KeepsOthers(m, caller, sp, ra, pushed, callee, r, x);
    }
  }

  lemma RulesApart(pushed: seq<int>, i: nat)
    requires Pushable(pushed) && i <= |pushed|
    ensures IsLast(PushRules(pushed), i)
  {
    var rules := PushRules(pushed);
    hide PushRules;
    forall j | i < j < |rules| ensures rules[j].0 != rules[i].0 {
      assert rules[j].0 == pushed[j - 1];
      if i > 0 { assert rules[i].0 == pushed[i - 1] && pushed[i - 1] != pushed[j - 1]; }
    }
  }

  lemma OffsetGives(m: Machine, cfa: Word, callee: Image, register: int, n: SWord, value: Option<Word>)
    requires 0 <= register <= 16 && RuleGives(m, cfa, callee, register, Offset(n), value)
    ensures value == m.memory((cfa + n) % WORD, 8)
  {
  }

  lemma LastGives(m: Machine, cfa: Word, callee: Image, rules: seq<(int, Rule)>, caller: Image, i: nat)
    requires CallerIs(m, cfa, callee, rules, caller) && IsLast(rules, i)
    ensures RuleGives(m, cfa, callee, rules[i].0, rules[i].1, At(caller, rules[i].0))
  {
    hide RuleGives, At, IsLast, Named;
    assert i < |rules| by { LastInside(rules, i); }
  }

  lemma LastInside(rules: seq<(int, Rule)>, i: nat)
    requires IsLast(rules, i)
    ensures i < |rules|
  {
  }

  lemma PushedAt(m: Machine, caller: Image, sp: Word, ra: Word, pushed: seq<int>, callee: Image, i: nat)
    requires Pushable(pushed) && AfterPrologue(m, caller, sp, ra, pushed, callee) && i < |pushed|
    ensures 0 <= pushed[i] < 16 && pushed[i] != 7 && pushed[i] in caller && |pushed| < 100
    ensures m.memory((sp - 16 - 8 * i) % WORD, 8) == Some(caller[pushed[i]])
  {
  }

  lemma RestoresAddress(m: Machine, caller: Image, sp: Word, ra: Word, pushed: seq<int>, callee: Image, r: Image)
    requires Pushable(pushed) && AfterPrologue(m, caller, sp, ra, pushed, callee)
    requires CallerIs(m, sp, callee, PushRules(pushed), r)
    ensures At(r, 16) == Some(ra)
  {
    RulesApart(pushed, 0);
    LastGives(m, sp, callee, PushRules(pushed), r, 0);
    hide PushRules, RuleGives, At;
    OffsetGives(m, sp, callee, 16, -8, At(r, 16));
  }

  lemma RestoresPushed(
    m: Machine, caller: Image, sp: Word, ra: Word, pushed: seq<int>, callee: Image, r: Image, i: nat)
    requires Pushable(pushed) && AfterPrologue(m, caller, sp, ra, pushed, callee) && i < |pushed|
    requires CallerIs(m, sp, callee, PushRules(pushed), r)
    ensures pushed[i] != 7 && pushed[i] != 16 && pushed[i] in caller
    ensures At(r, pushed[i]) == Some(caller[pushed[i]])
  {
    hide PushRules, RuleGives, At, Pushable, AfterPrologue, CallerIs, IsLast;
    PushedAt(m, caller, sp, ra, pushed, callee, i);
    RulesApart(pushed, i + 1);
    LastGives(m, sp, callee, PushRules(pushed), r, i + 1);
    OffsetGives(m, sp, callee, pushed[i], -16 - 8 * i, At(r, pushed[i]));
  }

  lemma KeepsOthers(
    m: Machine, caller: Image, sp: Word, ra: Word, pushed: seq<int>, callee: Image, r: Image, x: int)
    requires Pushable(pushed) && AfterPrologue(m, caller, sp, ra, pushed, callee) && x != 16 && x !in pushed
    requires CallerIs(m, sp, callee, PushRules(pushed), r)
    ensures At(r, x) == if x == 7 then Some(sp) else At(caller, x)
  {
    NotNamed(pushed, x);
    hide PushRules, RuleGives, Pushable, IsLast;
    assert !Named(PushRules(pushed), x);
    assert At(r, x) == if x == 7 then Some(sp) else At(callee, x);
  }

  lemma NotNamed(pushed: seq<int>, x: int)
    requires |pushed| < 100 && x != 16 && x !in pushed
    ensures !Named(PushRules(pushed), x)
  {
    var rules := PushRules(pushed);
    hide PushRules;
    forall i | 0 <= i < |rules| ensures rules[i].0 != x {
      if i > 0 { assert rules[i].0 == pushed[i - 1]; }
    }
  }
}
