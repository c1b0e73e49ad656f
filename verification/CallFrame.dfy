/** Resolved frame metadata, and how a row of register rules rebuilds the caller's registers. */
module CallFrame {
  import opened Words
  import opened Registers

  // ---- Metadata ----

  /** DWARF expressions are named by their bytes; evaluating them is left to the machine. */
  type ExpressionId = nat

  datatype CfaRule = RegisterAndOffset(register: int, offset: SWord) | CfaExpression(id: ExpressionId)

  /** Register rules, section 6.4.1 of DWARF Version 5. */
  datatype Rule =
    | Undefined
    | SameValue
    | Offset(offset: SWord)
    | ValOffset(offset: SWord)
    | Register(source: int)
    | Expression(id: ExpressionId)
    | ValExpression(id: ExpressionId)
    | Architectural
    | Constant(value: Word)

  datatype Row = Row(cfa: CfaRule, rules: seq<(int, Rule)>, args: Word)

  datatype Pointer = Direct(address: Word) | Indirect(address: Word)

  datatype Fde = Fde(
    row: Row,
    start: Word,
    signal: bool,
    text: Word,
    data: Option<Word>,
    lsda: Option<Pointer>,
    personality: Option<Pointer>)

  /** Metadata for one frame and the instruction address that selected it. */
  datatype Info = Info(instruction: Word, fde: Fde)

  /** The stable outside world: unwind tables, readable memory, and the expression evaluator. */
  datatype Machine = Machine(
    fde: Word -> Result<Fde, UnwindError>,
    memory: (Word, nat) -> Option<Word>,
    expression: (ExpressionId, Image, Option<Word>) -> Result<Word, UnwindError>)

  function ReadMemory(m: Machine, address: Word, size: nat): Result<Word, UnwindError> {
    match m.memory(address, size) case Some(value) => Ok(value) case None => Err(Memory)
  }

  /** An indirect pointer is one word in memory. */
  function Resolve(m: Machine, pointer: Option<Pointer>): Result<Option<Word>, UnwindError> {
    match pointer
    case None => Ok(None)
    case Some(Direct(address)) => Ok(Some(address))
    case Some(Indirect(address)) => var value :- ReadMemory(m, address, 8); Ok(Some(value))
  }

  // ---- Which frame an activation is in ----

  datatype Relation = Return | Instruction {
    /** The address to look up: the call in front of a return address, or the interrupted instruction. */
    function Site(address: Word): Option<Word> {
      if Return? then (if address == 0 then None else Some(address - 1)) else Some(address)
    }

    predicate Before() { Instruction? }
  }

  /** None at the end of the stack: no return address, or a zero one. */
  function InfoOf(m: Machine, image: Image, relation: Relation): Result<Option<Info>, UnwindError> {
    if RA !in image || image[RA] == 0 then Ok(None)
    else
      match relation.Site(image[RA])
      case None => Ok(None)
      case Some(instruction) => var fde :- m.fde(instruction); Ok(Some(Info(instruction, fde)))
  }

  /** A direct pointer is the address itself, and an indirect one the word that memory holds there. */
  lemma ResolveMeans(m: Machine, pointer: Option<Pointer>)
    ensures match pointer
            case None => Resolve(m, pointer) == Ok(None)
            case Some(Direct(address)) => Resolve(m, pointer) == Ok(Some(address))
            case Some(Indirect(address)) =>
              (match m.memory(address, 8)
               case Some(word) => Resolve(m, pointer) == Ok(Some(word))
               case None => Resolve(m, pointer) == Err(Memory))
  {
  }

  /** A returning frame is looked up at the call in front of its return address, an interrupted one where it is. */
  lemma RelationMeans(address: Word)
    ensures Return.Site(address) == if address == 0 then None else Some(address - 1)
    ensures Instruction.Site(address) == Some(address)
    ensures Instruction.Before() && !Return.Before()
  {
  }

  /**
   * The stack ends exactly where no return address is known or it is zero. Elsewhere the frame is the one whose
   * metadata cover the call in front of the return address, or the interrupted instruction itself.
   */
  lemma InfoMeans(m: Machine, image: Image, relation: Relation)
    ensures InfoOf(m, image, relation) == Ok(None) <==> 16 !in image || image[16] == 0
    ensures forall info: Info :: InfoOf(m, image, relation) == Ok(Some(info)) <==>
              && 16 in image && image[16] > 0
              && info.instruction == (if relation.Return? then image[16] - 1 else image[16])
              && m.fde(info.instruction) == Ok(info.fde)
    ensures forall e :: InfoOf(m, image, relation) == Err(e) <==>
              16 in image && image[16] > 0 && m.fde(if relation.Return? then image[16] - 1 else image[16]) == Err(e)
  {
  }

  // ---- What a row of rules means ----

  function CfaOf(m: Machine, row: Row, image: Image): Result<Word, UnwindError> {
    match row.cfa
    case RegisterAndOffset(register, offset) => var base :- ReadOf(image, register); Ok(WrapAdd(base, offset))
    case CfaExpression(id) => m.expression(id, image, None)
  }

  /** Reads a register that was saved at `address`. */
  function Saved(m: Machine, register: int, address: Word): Result<Word, UnwindError> {
    var width :- WidthOf(register);
    ReadMemory(m, address, width)
  }

  /** What one rule says of its register, judged on the callee alone: a value, or that there is none. */
  function RuleValue(
    m: Machine, cfa: Word, image: Image, register: int, rule: Rule): Result<Option<Word>, UnwindError>
  {
    var value :-
      match rule
      case Undefined => Ok(None)
      case SameValue => (var v :- ReadOf(image, register); Ok(Some(v)))
      case Offset(n) => (var v :- Saved(m, register, WrapAdd(cfa, n)); Ok(Some(v)))
      case ValOffset(n) => Ok(Some(WrapAdd(cfa, n)))
      case Register(source) => (var v :- ReadOf(image, source); Ok(Some(v)))
      case Expression(id) =>
        (var address :- m.expression(id, image, Some(cfa));
         var v :- Saved(m, register, address);
         Ok(Some(v)))
      case ValExpression(id) => (var v :- m.expression(id, image, Some(cfa)); Ok(Some(v)))
      case Architectural => Err(UnwindError.Expression)
      case Constant(v) => Ok(Some(v));
    if register in MODELED then Ok(value) else Err(BadRegister(register))
  }

  function Put(image: Image, register: int, value: Option<Word>): Image {
    match value case None => image - {register} case Some(v) => image[register := v]
  }

  /** The rules applied one after the other. */
  function ApplyRules(
    m: Machine, cfa: Word, callee: Image, rules: seq<(int, Rule)>, caller: Image): Result<Image, UnwindError>
    decreases |rules|
  {
    if rules == [] then Ok(caller)
    else
      var value :- RuleValue(m, cfa, callee, rules[0].0, rules[0].1);
      ApplyRules(m, cfa, callee, rules[1..], Put(caller, rules[0].0, value))
  }

  /** Registers without a rule keep the callee's value, but RSP becomes the CFA and RA is unknown. */
  function CallerOf(m: Machine, row: Row, image: Image): Result<Image, UnwindError> {
    var cfa :- CfaOf(m, row, image);
    ApplyRules(m, cfa, image, row.rules, image[RSP := cfa] - {RA})
  }

  // ---- The loop of the source ----

  /** Updates a clone of the callee's registers in place, one rule at a time. */
  method Caller(m: Machine, row: Row, registers: State) returns (r: Result<State, UnwindError>)
    ensures match CallerOf(m, row, registers.slots)
            case Ok(image) => r.Ok? && fresh(r.value) && r.value.slots == image
            case Err(e) => r == Err(e)
  {
    var cfa := CfaOf(m, row, registers.slots);
    if cfa.Err? {
      return Err(cfa.error);
    }
    var caller := new State.Clone(registers);
    var _ := caller.Write(RSP, cfa.value);
    var _ := caller.Clear(RA);
    hide RuleValue;
    ghost var first := caller.slots;
    for i := 0 to |row.rules|
      invariant ApplyRules(m, cfa.value, registers.slots, row.rules, first)
                == ApplyRules(m, cfa.value, registers.slots, row.rules[i..], caller.slots)
    {
      var (register, rule) := row.rules[i];
      assert row.rules[i..][1..] == row.rules[i + 1..];
      var value := RuleValue(m, cfa.value, registers.slots, register, rule);
      RuleRegister(m, cfa.value, registers.slots, register, rule);
      match value {
        case Err(error) => return Err(error);
        case Ok(None) => var _ := caller.Clear(register);
        case Ok(Some(v)) => var _ := caller.Write(register, v);
      }
    }
    return Ok(caller);
  }

  lemma RuleRegister(m: Machine, cfa: Word, image: Image, register: int, rule: Rule)
    ensures RuleValue(m, cfa, image, register, rule).Ok? ==> register in MODELED
  {
  }

  // ---- Simultaneous assignment ----

  /** The last rule for a register, if it has one. */
  function LastRule(rules: seq<(int, Rule)>, register: int): (r: Option<nat>)
    ensures r.Some? ==> r.value < |rules| && rules[r.value].0 == register
    ensures forall i | 0 <= i < |rules| && rules[i].0 == register :: r.Some? && i <= r.value
  {
    if rules == [] then None
    else
      match LastRule(rules[1..], register)
      case Some(i) => Some(i + 1)
      case None => if rules[0].0 == register then Some(0) else None
  }

  function At(image: Image, register: int): Option<Word> {
    if register in image then Some(image[register]) else None
  }

  /** The value of a register by its last rule, judged on the callee, and `kept` without a rule. */
  function Assigned(
    m: Machine, cfa: Word, callee: Image, rules: seq<(int, Rule)>, register: int, kept: Option<Word>): Option<Word>
  {
    match LastRule(rules, register)
    case None => kept
    case Some(i) =>
      match RuleValue(m, cfa, callee, register, rules[i].1) case Ok(value) => value case Err(_) => None
  }

  /** What a register keeps when no rule names it. */
  function WithoutRule(cfa: Word, callee: Image, register: int): Option<Word> {
    if register == RA then None else if register == RSP then Some(cfa) else At(callee, register)
  }

  lemma {:induction false} ApplyRulesIs(m: Machine, cfa: Word, callee: Image, rules: seq<(int, Rule)>, caller: Image)
    ensures var r := ApplyRules(m, cfa, callee, rules, caller);
            && (r.Ok? <==> forall i | 0 <= i < |rules| :: RuleValue(m, cfa, callee, rules[i].0, rules[i].1).Ok?)
            && (r.Ok? ==> forall x :: At(r.value, x) == Assigned(m, cfa, callee, rules, x, At(caller, x)))
    decreases |rules|
  {
    hide RuleValue;
    if rules != [] {
      var first := RuleValue(m, cfa, callee, rules[0].0, rules[0].1);
      var rest := rules[1..];
      assert forall i | 0 <= i < |rest| :: rest[i] == rules[i + 1];
      if first.Ok? {
        ApplyRulesIs(m, cfa, callee, rest, Put(caller, rules[0].0, first.value));
      }
    }
  }

  /**
   * The in-place loop is one simultaneous assignment: it succeeds if and only if the CFA and every rule can be
   * evaluated on the callee, and then every register has the value its rule gives on the callee. Registers
   * without a rule carry over, except that RSP is the CFA and the return address is unknown.
   */
  lemma CallerIsSimultaneous(m: Machine, row: Row, callee: Image)
    ensures var r := CallerOf(m, row, callee);
            var cfa := CfaOf(m, row, callee);
            && (r.Ok? <==> cfa.Ok? && forall i | 0 <= i < |row.rules| ::
                             RuleValue(m, cfa.value, callee, row.rules[i].0, row.rules[i].1).Ok?)
            && (r.Ok? ==> forall x :: At(r.value, x)
                                      == Assigned(m, cfa.value, callee, row.rules, x,
                                          WithoutRule(cfa.value, callee, x)))
  {
    hide RuleValue, CfaOf;
    var cfa := CfaOf(m, row, callee);
    if cfa.Ok? { ApplyRulesIs(m, cfa.value, callee, row.rules, callee[RSP := cfa.value] - {RA}); }
  }

  predicate Distinct(rules: seq<(int, Rule)>) {
    forall i, j | 0 <= i < j < |rules| :: rules[i].0 != rules[j].0
  }

  /** With one rule for each register, the order of the rules changes neither success nor result. */
  lemma RuleOrderIrrelevant(m: Machine, row: Row, rules: seq<(int, Rule)>, callee: Image)
    requires Distinct(row.rules) && Distinct(rules) && forall x :: x in row.rules <==> x in rules
    ensures var a, b := CallerOf(m, row, callee), CallerOf(m, row.(rules := rules), callee);
            && (a.Ok? <==> b.Ok?)
            && (a.Ok? ==> a == b)
  {
    hide RuleValue, CallerOf, LastRule;
    CallerIsSimultaneous(m, row, callee);
    CallerIsSimultaneous(m, row.(rules := rules), callee);
    var cfa := CfaOf(m, row, callee);
    assert cfa == CfaOf(m, row.(rules := rules), callee);
    hide CfaOf;
    var a, b := CallerOf(m, row, callee), CallerOf(m, row.(rules := rules), callee);
    if cfa.Ok? { SameSuccess(m, cfa.value, callee, row.rules, rules); }
    if a.Ok? {
      forall register ensures At(a.value, register) == At(b.value, register) {
        SameLastRule(row.rules, rules, register);
      }
      SameImage(a.value, b.value);
    }
  }

  lemma SameSuccess(m: Machine, cfa: Word, callee: Image, rules: seq<(int, Rule)>, other: seq<(int, Rule)>)
    requires forall x :: x in rules <==> x in other
    ensures (forall i | 0 <= i < |rules| :: RuleValue(m, cfa, callee, rules[i].0, rules[i].1).Ok?)
       <==> (forall i | 0 <= i < |other| :: RuleValue(m, cfa, callee, other[i].0, other[i].1).Ok?)
  {
    hide RuleValue;
    if forall i | 0 <= i < |rules| :: RuleValue(m, cfa, callee, rules[i].0, rules[i].1).Ok? {
      forall i | 0 <= i < |other| ensures RuleValue(m, cfa, callee, other[i].0, other[i].1).Ok? {
        assert other[i] in rules;
      }
    }
    if forall i | 0 <= i < |other| :: RuleValue(m, cfa, callee, other[i].0, other[i].1).Ok? {
      forall i | 0 <= i < |rules| ensures RuleValue(m, cfa, callee, rules[i].0, rules[i].1).Ok? {
        assert rules[i] in other;
      }
    }
  }

  lemma SameLastRule(rules: seq<(int, Rule)>, other: seq<(int, Rule)>, register: int)
    requires Distinct(rules) && Distinct(other) && forall x :: x in rules <==> x in other
    ensures var a, b := LastRule(rules, register), LastRule(other, register);
            (a.Some? <==> b.Some?) && (a.Some? ==> rules[a.value] == other[b.value])
  {
    var a, b := LastRule(rules, register), LastRule(other, register);
    if a.Some? {
      assert rules[a.value] in other;
    }
    if b.Some? {
      assert other[b.value] in rules;
    }
  }

  lemma SameImage(a: Image, b: Image)
    requires forall register :: At(a, register) == At(b, register)
    ensures a == b
  {
    forall register ensures register in a <==> register in b {
      assert At(a, register) == At(b, register);
    }
    assert a.Keys == b.Keys;
    forall register | register in a ensures a[register] == b[register] {
      assert At(a, register) == At(b, register);
    }
  }

  // ---- What reaches a landing pad ----

  /** No rule marks a preserved register undefined. */
  predicate Gentle(row: Row) {
    forall i | 0 <= i < |row.rules| :: row.rules[i].1.Undefined? ==> row.rules[i].0 !in PRESERVED
  }

  /** Stepping to a caller keeps every preserved register available. */
  lemma CallerKeepsPreserved(m: Machine, row: Row, callee: Image)
    requires PRESERVED <= callee.Keys && Gentle(row) && CallerOf(m, row, callee).Ok?
    ensures PRESERVED <= CallerOf(m, row, callee).value.Keys
  {
    hide RuleValue, CallerOf, CfaOf, LastRule;
    CallerIsSimultaneous(m, row, callee);
    var caller := CallerOf(m, row, callee).value;
    var cfa := CfaOf(m, row, callee).value;
    forall r | r in PRESERVED ensures r in caller {
      assert At(caller, r) == Assigned(m, cfa, callee, row.rules, r, WithoutRule(cfa, callee, r));
      var last := LastRule(row.rules, r);
      if last.Some? { DefinedRule(m, cfa, callee, r, row.rules[last.value].1); }
    }
  }

  lemma DefinedRule(m: Machine, cfa: Word, callee: Image, register: int, rule: Rule)
    ensures var r := RuleValue(m, cfa, callee, register, rule); r.Ok? ==> (r.value == None <==> rule.Undefined?)
  {
  }

  /** A volatile register becomes available only by a rule. */
  lemma CallerAddsByRule(m: Machine, row: Row, callee: Image, register: int)
    requires CallerOf(m, row, callee).Ok?
    requires register in CallerOf(m, row, callee).value && register !in callee && register != RSP
    ensures exists i | 0 <= i < |row.rules| :: row.rules[i].0 == register && !row.rules[i].1.Undefined?
  {
    hide RuleValue, CallerOf, CfaOf, LastRule;
    CallerIsSimultaneous(m, row, callee);
    var cfa := CfaOf(m, row, callee).value;
    assert At(CallerOf(m, row, callee).value, register).Some?;
    var last := LastRule(row.rules, register);
    if last.Some? { DefinedRule(m, cfa, callee, register, row.rules[last.value].1); }
  }
}
