/** What the verifier's operand checks mean: acceptance stated operand by operand, through the roles, and
    what it guarantees of each kind of instruction, without the check table.
 */
module Acceptance {
  import opened Base
  import opened Instructions
  import opened Signatures
  import opened Bytecode
  import opened Verifier

  predicate OperandOk(m: Module, f: Function, role: Role, n: U32) {
    match role
    case Input => n < f.registerCount
    case Output => n < f.registerCount
    case Loaded => n < |m.constants|
    case Name => n < |m.constants| && m.constants[n].Text?
    case Callee => n < |m.functions|
    case Target => n < |f.code|
  }

  predicate OperandsOk(m: Module, f: Function, rs: Roles, ws: Words)
    requires SameShape(rs, ws)
  {
    match rs
    case R0 => true
    case R1(a) => OperandOk(m, f, a, ws.a)
    case R2(a, b) => OperandOk(m, f, a, ws.a) && OperandOk(m, f, b, ws.b)
    case R3(a, b, c) => OperandOk(m, f, a, ws.a) && OperandOk(m, f, b, ws.b) && OperandOk(m, f, c, ws.c)
    case R4(a, b, c, d) =>
      OperandOk(m, f, a, ws.a) && OperandOk(m, f, b, ws.b) && OperandOk(m, f, c, ws.c) && OperandOk(m, f, d, ws.d)
  }

  /** Two outputs differ, except those of a suspension, and a copy's target is neither of its inputs. */
  predicate AliasFree(i: Instruction, written: seq<Register>) {
    && (|written| == 2 && !i.Suspend? ==> written[0] != written[1])
    && (i.CopyDataProperties? ==> i.target != i.source && i.target != i.excluded)
  }

  predicate AllHold(m: Module, f: Function, checks: seq<Check>) {
    forall c :: c in checks ==> Holds(m, f, c)
  }

  /** The check an operand calls for. */
  function CheckFor(role: Role, n: U32): Check {
    match role
    case Input => InRegisters(n)
    case Output => InRegisters(n)
    case Loaded => InConstants(n)
    case Name => IsString(n)
    case Callee => InFunctions(n)
    case Target => InCode(n)
  }

  /** Registers and names are checked before constants, functions and targets. */
  predicate Early(role: Role) {
    role == Input || role == Output || role == Name
  }

  function Queue(early: bool, role: Role, n: U32, rest: seq<Check>): seq<Check> {
    if Early(role) == early then [CheckFor(role, n)] + rest else rest
  }

  /** The checks of one rank, in wire order, then `rest`. */
  function Ranked(early: bool, rs: Roles, ws: Words, rest: seq<Check>): seq<Check>
    requires SameShape(rs, ws)
  {
    match rs
    case R0 => rest
    case R1(a) => Queue(early, a, ws.a, rest)
    case R2(a, b) => Queue(early, a, ws.a, Queue(early, b, ws.b, rest))
    case R3(a, b, c) => Queue(early, a, ws.a, Queue(early, b, ws.b, Queue(early, c, ws.c, rest)))
    case R4(a, b, c, d) =>
      Queue(early, a, ws.a, Queue(early, b, ws.b, Queue(early, c, ws.c, Queue(early, d, ws.d, rest))))
  }

  /** The forbidden coincidences, checked last. */
  function AliasChecks(i: Instruction, written: seq<Register>): seq<Check> {
    if |written| == 2 && !i.Suspend? then [Distinct(written[0], written[1])]
    else if i.CopyDataProperties? then [Distinct(i.target, i.source), Distinct(i.target, i.excluded)]
    else []
  }

  function ExpectedChecks(i: Instruction, rs: Roles, ws: Words, written: seq<Register>): seq<Check>
    requires SameShape(rs, ws)
  {
    Ranked(true, rs, ws, Ranked(false, rs, ws, AliasChecks(i, written)))
  }

  lemma ChecksAre0(i: Instruction)
    requires InGroup0(i)
    ensures
      var p := Disassemble0(i);
      && 0 <= p.op < 10 && SameShape(Roles0(p.op), Integers(p))
      && OperandChecks0(i) == ExpectedChecks(i, Roles0(p.op), Integers(p), Writes0(i))
  {}

  lemma ChecksAre10(i: Instruction)
    requires InGroup10(i)
    ensures
      var p := Disassemble10(i);
      && 10 <= p.op < 20 && SameShape(Roles10(p.op), Integers(p))
      && OperandChecks10(i) == ExpectedChecks(i, Roles10(p.op), Integers(p), Writes10(i))
  {}

  lemma ChecksAre20(i: Instruction)
    requires InGroup20(i)
    ensures
      var p := Disassemble20(i);
      && 20 <= p.op < 30 && SameShape(Roles20(p.op), Integers(p))
      && OperandChecks20(i) == ExpectedChecks(i, Roles20(p.op), Integers(p), Writes20(i))
  {}

  lemma ChecksAre30(i: Instruction)
    requires InGroup30(i)
    ensures
      var p := Disassemble30(i);
      && 30 <= p.op < 40 && SameShape(Roles30(p.op), Integers(p))
      && OperandChecks30(i) == ExpectedChecks(i, Roles30(p.op), Integers(p), Writes30(i))
  {}

  lemma ChecksAre40(i: Instruction)
    requires InGroup40(i)
    ensures
      var p := Disassemble40(i);
      && 40 <= p.op < 50 && SameShape(Roles40(p.op), Integers(p))
      && OperandChecks40(i) == ExpectedChecks(i, Roles40(p.op), Integers(p), Writes40(i))
  {}

  lemma ChecksAre50(i: Instruction)
    requires InGroup50(i)
    ensures
      var p := Disassemble50(i);
      && 50 <= p.op < 58 && SameShape(Roles50(p.op), Integers(p))
      && OperandChecks50(i) == ExpectedChecks(i, Roles50(p.op), Integers(p), Writes50(i))
  {}

  /** The check list of an instruction, in order: registers and names as they lie on the wire, then
      constants, functions and targets, then the forbidden coincidences. */
  lemma ChecksAreExpected(i: Instruction)
    ensures
      var p := Disassemble(i);
      && p.op < OPCODE_COUNT && SameShape(RolesOf(p.op), Integers(p))
      && OperandChecks(i) == ExpectedChecks(i, RolesOf(p.op), Integers(p), Writes(i))
  {
    hide ExpectedChecks, SameShape, Integers;
    hide Disassemble0, Disassemble10, Disassemble20, Disassemble30, Disassemble40, Disassemble50;
    hide Roles0, Roles10, Roles20, Roles30, Roles40, Roles50;
    hide Writes0, Writes10, Writes20, Writes30, Writes40, Writes50;
    hide OperandChecks0, OperandChecks10, OperandChecks20, OperandChecks30, OperandChecks40, OperandChecks50;
    if InGroup0(i) {
      ChecksAre0(i);
    } else if InGroup10(i) {
      ChecksAre10(i);
    } else if InGroup20(i) {
      ChecksAre20(i);
    } else if InGroup30(i) {
      ChecksAre30(i);
    } else if InGroup40(i) {
      ChecksAre40(i);
    } else {
      ChecksAre50(i);
    }
  }

  lemma AllHoldNext(m: Module, f: Function, c: Check, rest: seq<Check>)
    ensures AllHold(m, f, [c] + rest) <==> Holds(m, f, c) && AllHold(m, f, rest)
  {
    hide Holds;
    assert forall d :: d in [c] + rest <==> d == c || d in rest;
  }

  lemma QueueHolds(m: Module, f: Function, early: bool, role: Role, n: U32, rest: seq<Check>)
    ensures AllHold(m, f, Queue(early, role, n, rest)) <==>
            (Early(role) == early ==> OperandOk(m, f, role, n)) && AllHold(m, f, rest)
  {
    hide AllHold;
    AllHoldNext(m, f, CheckFor(role, n), rest);
  }

  /** The operands of one rank are what their roles require. */
  predicate RankOk(m: Module, f: Function, early: bool, rs: Roles, ws: Words)
    requires SameShape(rs, ws)
  {
    && (!rs.R0? ==> Early(rs.a) == early ==> OperandOk(m, f, rs.a, ws.a))
    && (!rs.R0? && !rs.R1? ==> Early(rs.b) == early ==> OperandOk(m, f, rs.b, ws.b))
    && (rs.R3? || rs.R4? ==> Early(rs.c) == early ==> OperandOk(m, f, rs.c, ws.c))
    && (rs.R4? ==> Early(rs.d) == early ==> OperandOk(m, f, rs.d, ws.d))
  }

  lemma RankedHold(m: Module, f: Function, early: bool, rs: Roles, ws: Words, rest: seq<Check>)
    requires SameShape(rs, ws)
    ensures AllHold(m, f, Ranked(early, rs, ws, rest)) <==> RankOk(m, f, early, rs, ws) && AllHold(m, f, rest)
  {
    hide AllHold, Queue, Early, OperandOk;
    match rs
    case R0 =>
    case R1(a) => QueueHolds(m, f, early, a, ws.a, rest);
    case R2(a, b) =>
      QueueHolds(m, f, early, b, ws.b, rest);
      QueueHolds(m, f, early, a, ws.a, Queue(early, b, ws.b, rest));
    case R3(a, b, c) =>
      var second := Queue(early, c, ws.c, rest);
      QueueHolds(m, f, early, c, ws.c, rest);
      QueueHolds(m, f, early, b, ws.b, second);
      QueueHolds(m, f, early, a, ws.a, Queue(early, b, ws.b, second));
    case R4(a, b, c, d) =>
      var third := Queue(early, d, ws.d, rest);
      var second := Queue(early, c, ws.c, third);
      QueueHolds(m, f, early, d, ws.d, rest);
      QueueHolds(m, f, early, c, ws.c, third);
      QueueHolds(m, f, early, b, ws.b, second);
      QueueHolds(m, f, early, a, ws.a, Queue(early, b, ws.b, second));
  }

  lemma AliasesHold(m: Module, f: Function, i: Instruction, written: seq<Register>)
    requires i.CopyDataProperties? ==> |written| != 2
    ensures AllHold(m, f, AliasChecks(i, written)) <==> AliasFree(i, written)
  {
    if |written| == 2 && !i.Suspend? {
      AllHoldNext(m, f, Distinct(written[0], written[1]), []);
    } else if i.CopyDataProperties? {
      AllHoldNext(m, f, Distinct(i.target, i.source), [Distinct(i.target, i.excluded)]);
      AllHoldNext(m, f, Distinct(i.target, i.excluded), []);
      assert [Distinct(i.target, i.excluded)] + [] == [Distinct(i.target, i.excluded)];
    }
  }

  lemma CopyWritesNothing(i: Instruction)
    requires i.CopyDataProperties?
    ensures Writes(i) == []
  {}

  /** The checks of an instruction all hold exactly when every operand is what its role requires and no
      forbidden pair of operands coincides. */
  lemma ChecksMean(m: Module, f: Function, i: Instruction)
    ensures
      var p := Disassemble(i);
      && p.op < OPCODE_COUNT && SameShape(RolesOf(p.op), Integers(p))
      && (AllHold(m, f, OperandChecks(i)) <==>
          OperandsOk(m, f, RolesOf(p.op), Integers(p)) && AliasFree(i, Writes(i)))
  {
    if i.CopyDataProperties? { CopyWritesNothing(i); }
    hide Disassemble, RolesOf, Integers, OperandChecks, Writes, AllHold, Ranked, AliasFree, AliasChecks;
    ChecksAreExpected(i);
    var p := Disassemble(i);
    var rs, ws := RolesOf(p.op), Integers(p);
    AliasesHold(m, f, i, Writes(i));
    RankedHold(m, f, false, rs, ws, AliasChecks(i, Writes(i)));
    RankedHold(m, f, true, rs, ws, Ranked(false, rs, ws, AliasChecks(i, Writes(i))));
    RanksTogether(m, f, rs, ws);
  }

  lemma RanksTogether(m: Module, f: Function, rs: Roles, ws: Words)
    requires SameShape(rs, ws)
    ensures RankOk(m, f, true, rs, ws) && RankOk(m, f, false, rs, ws) <==> OperandsOk(m, f, rs, ws)
  {
    hide OperandOk, Early;
  }

  /** An instruction is accepted exactly when its operands are what their roles require, no forbidden pair
      coincides and every successor is an instruction. */
  lemma AcceptedExactly(m: Module, f: Function, pc: nat)
    requires pc < |f.code|
    ensures
      var i := f.code[pc];
      var p := Disassemble(i);
      && p.op < OPCODE_COUNT && SameShape(RolesOf(p.op), Integers(p))
      && (InstructionOk(m, f, pc) <==>
          && OperandsOk(m, f, RolesOf(p.op), Integers(p))
          && AliasFree(i, Writes(i))
          && forall s :: s in Successors(i, pc) ==> s < |f.code|)
  {
    hide OperandsOk, SameShape, AliasFree, Integers, Disassemble, RolesOf, OperandChecks, Successors, Writes, AllHold;
    ChecksMean(m, f, f.code[pc]);
    AllHoldTogether(m, f, OperandChecks(f.code[pc]), Successors(f.code[pc], pc));
    AllHoldIsOk(m, f, pc);
  }

  lemma AllHoldIsOk(m: Module, f: Function, pc: nat)
    requires pc < |f.code|
    ensures InstructionOk(m, f, pc) <==> AllHold(m, f, OperandChecks(f.code[pc]) + Targets(Successors(f.code[pc], pc)))
  {}

  lemma AllHoldTogether(m: Module, f: Function, checks: seq<Check>, successors: seq<nat>)
    ensures AllHold(m, f, checks + Targets(successors)) <==>
            AllHold(m, f, checks) && forall s :: s in successors ==> s < |f.code|
  {
    var targets := Targets(successors);
    assert forall c :: c in checks + targets <==> c in checks || c in targets;
    if AllHold(m, f, checks + targets) {
      forall s | s in successors
        ensures s < |f.code|
      {
        var k :| 0 <= k < |successors| && successors[k] == s;
        assert targets[k] in targets;
        assert Holds(m, f, InCode(s));
      }
    }
    if forall s :: s in successors ==> s < |f.code| {
      forall c | c in targets
        ensures Holds(m, f, c)
      {
        var k :| 0 <= k < |targets| && targets[k] == c;
        assert successors[k] in successors;
      }
    }
  }

  predicate IsText(m: Module, c: nat) {
    c < |m.constants| && m.constants[c].Text?
  }

  /** Every name an accepted instruction uses is a string constant, and what it loads or closes over exists. */
  lemma AcceptedReferencesExist(m: Module, f: Function, pc: nat)
    requires pc < |f.code| && InstructionOk(m, f, pc)
    ensures var i := f.code[pc];
      && (i.LoadGlobal? || i.StoreGlobal? || i.TypeOfGlobal? || i.Export? ==> IsText(m, i.name))
      && (i.Import? || i.ImportAttributes? ==> IsText(m, i.specifier))
      && (i.CreatePrivateName? ==> IsText(m, i.description))
      && (i.CreateRegExp? ==> IsText(m, i.pattern) && IsText(m, i.flags))
      && (i.LoadConst? ==> i.constant < |m.constants|)
      && (i.CreateClosure? ==> i.closure < |m.functions|)
  {
    hide InstructionOk, AliasFree, Successors, Writes;
    AcceptedExactly(m, f, pc);
  }

  /** An accepted instruction's outputs do not clobber each other or the object being copied into. */
  lemma AcceptedOutputsDiffer(m: Module, f: Function, pc: nat)
    requires pc < |f.code| && InstructionOk(m, f, pc)
    ensures var i := f.code[pc];
      && (|Writes(i)| == 2 && !i.Suspend? ==> Writes(i)[0] != Writes(i)[1])
      && (i.CopyDataProperties? ==> i.target != i.source && i.target != i.excluded)
  {
    hide InstructionOk, OperandsOk, Successors, Writes, Disassemble, RolesOf;
    AcceptedExactly(m, f, pc);
  }
}
