/** What each integer operand is for, by wire tag: a second account of the instruction set that the read,
    write, successor and check tables are proved to agree with, operand for operand.
 */
module Signatures {
  import opened Base
  import opened Instructions

  /** A register read, a register written, a constant loaded, a string constant, a function, a target. */
  datatype Role = Input | Output | Loaded | Name | Callee | Target

  /** The roles of the integer operands, in wire order. */
  datatype Roles =
    | R0
    | R1(a: Role)
    | R2(a: Role, b: Role)
    | R3(a: Role, b: Role, c: Role)
    | R4(a: Role, b: Role, c: Role, d: Role)

  function Roles0(op: byte): Roles
    requires 0 <= op < 10
  {
    match op
    case 0 => R2(Output, Loaded)
    case 1 => R2(Output, Input)
    case 2 => R2(Output, Input)
    case 3 => R3(Output, Input, Input)
    case 4 => R1(Output)
    case 5 => R1(Output)
    case 6 => R3(Output, Callee, Input)
    case 7 => R3(Output, Input, Input)
    case 8 => R3(Input, Input, Input)
    case _ => R3(Output, Input, Input)
  }

  function Roles10(op: byte): Roles
    requires 10 <= op < 20
  {
    match op
    case 10 => R3(Input, Input, Input)
    case 11 => R4(Output, Input, Input, Input)
    case 12 => R3(Output, Input, Input)
    case 13 => R2(Output, Name)
    case 14 => R2(Name, Input)
    case 15 => R2(Output, Name)
    case 16 => R1(Output)
    case 17 => R1(Output)
    case 18 => R1(Output)
    case _ => R2(Input, Input)
  }

  function Roles20(op: byte): Roles
    requires 20 <= op < 30
  {
    match op
    case 20 => R2(Input, Input)
    case 21 => R2(Input, Input)
    case 22 => R2(Input, Input)
    case 23 => R2(Output, Name)
    case 24 => R3(Output, Name, Name)
    case 25 => R2(Output, Input)
    case 26 => R3(Output, Output, Input)
    case 27 => R1(Target)
    case 28 => R2(Input, Target)
    case _ => R2(Input, Target)
  }

  function Roles30(op: byte): Roles
    requires 30 <= op < 40
  {
    match op
    case 30 => R1(Input)
    case 31 => R1(Input)
    case 32 => R4(Output, Input, Target, Output)
    case 33 => R2(Output, Name)
    case 34 => R2(Name, Input)
    case 35 => R0
    case 36 => R1(Output)
    case 37 => R3(Output, Input, Target)
    case 38 => R2(Output, Input)
    case _ => R3(Output, Output, Input)
  }

  function Roles40(op: byte): Roles
    requires 40 <= op < 50
  {
    match op
    case 40 => R3(Output, Output, Input)
    case 41 => R2(Input, Input)
    case 42 => R2(Output, Input)
    case 43 => R2(Output, Input)
    case 44 => R1(Output)
    case 45 => R3(Output, Output, Input)
    case 46 => R3(Output, Input, Input)
    case 47 => R4(Output, Input, Input, Input)
    case 48 => R3(Input, Input, Input)
    case _ => R3(Output, Input, Input)
  }

  function Roles50(op: byte): Roles
    requires 50 <= op < 58
  {
    match op
    case 50 => R3(Input, Input, Input)
    case 51 => R3(Output, Input, Input)
    case 52 => R4(Output, Input, Input, Input)
    case 53 => R4(Input, Input, Input, Input)
    case 54 => R3(Output, Name, Input)
    case 55 => R3(Output, Input, Input)
    case 56 => R3(Input, Input, Input)
    case _ => R3(Output, Input, Input)
  }

  function RolesOf(op: byte): Roles
    requires op < OPCODE_COUNT
  {
    if op < 10 then Roles0(op)
    else if op < 20 then Roles10(op)
    else if op < 30 then Roles20(op)
    else if op < 40 then Roles30(op)
    else if op < 50 then Roles40(op)
    else Roles50(op)
  }

  /** The integer operands of an instruction, on both sides of its operator byte. */
  function Integers(p: Parts): Words {
    match (p.leading, p.trailing)
    case (W1(a), W1(b)) => W2(a, b)
    case (W1(a), W2(b, c)) => W3(a, b, c)
    case (ws, _) => ws
  }

  predicate SameShape(rs: Roles, ws: Words) {
    match rs
    case R0 => ws.W0?
    case R1(_) => ws.W1?
    case R2(_, _) => ws.W2?
    case R3(_, _, _) => ws.W3?
    case R4(_, _, _, _) => ws.W4?
  }

  function Keep(role: Role, wanted: Role, n: U32, rest: seq<U32>): seq<U32> {
    if role == wanted then [n] + rest else rest
  }

  /** The operands with a role, in wire order. */
  function Picked(rs: Roles, ws: Words, wanted: Role): seq<U32>
    requires SameShape(rs, ws)
  {
    match rs
    case R0 => []
    case R1(a) => Keep(a, wanted, ws.a, [])
    case R2(a, b) => Keep(a, wanted, ws.a, Keep(b, wanted, ws.b, []))
    case R3(a, b, c) => Keep(a, wanted, ws.a, Keep(b, wanted, ws.b, Keep(c, wanted, ws.c, [])))
    case R4(a, b, c, d) =>
      Keep(a, wanted, ws.a, Keep(b, wanted, ws.b, Keep(c, wanted, ws.c, Keep(d, wanted, ws.d, []))))
  }

  /** Control does not pass on to the next instruction: jumps, terminators and suspensions. */
  predicate Diverts(op: byte) {
    op == 27 || 30 <= op <= 32 || op == 35 || op == 37
  }

  /** The target of a jump or the resume point of a suspension, if there is one. */
  function TargetAmong(rs: Roles, ws: Words): Option<U32>
    requires SameShape(rs, ws)
  {
    match rs
    case R1(Target) => Some(ws.a)
    case R2(_, Target) => Some(ws.b)
    case R3(_, _, Target) => Some(ws.c)
    case R4(_, _, Target, _) => Some(ws.c)
    case _ => None
  }

  /** Where control goes: to the target if there is one, and on unless it is diverted. */
  function Onward(op: byte, target: Option<U32>, pc: nat): seq<nat> {
    match target
    case Some(t) => if Diverts(op) then [t] else [t, pc + 1]
    case None => if Diverts(op) then [] else [pc + 1]
  }

  /** The operands with their roles are what is read and what is written. */
  predicate Follows(read: seq<U32>, written: seq<U32>, p: Parts, rs: Roles) {
    && SameShape(rs, Integers(p))
    && read == Picked(rs, Integers(p), Input)
    && written == Picked(rs, Integers(p), Output)
  }

  predicate Leads(next: seq<nat>, p: Parts, rs: Roles, pc: nat) {
    SameShape(rs, Integers(p)) && next == Onward(p.op, TargetAmong(rs, Integers(p)), pc)
  }

  lemma FollowsRoles0(i: Instruction)
    requires InGroup0(i)
    ensures
      var p := Disassemble0(i);
      0 <= p.op < 10 && Follows(Reads0(i), Writes0(i), p, Roles0(p.op))
  {}

  lemma LeadsByRoles0(i: Instruction, pc: nat)
    requires InGroup0(i)
    ensures
      var p := Disassemble0(i);
      0 <= p.op < 10 && Leads(Successors(i, pc), p, Roles0(p.op), pc)
  {}

  lemma FollowsRoles10(i: Instruction)
    requires InGroup10(i)
    ensures
      var p := Disassemble10(i);
      10 <= p.op < 20 && Follows(Reads10(i), Writes10(i), p, Roles10(p.op))
  {}

  lemma LeadsByRoles10(i: Instruction, pc: nat)
    requires InGroup10(i)
    ensures
      var p := Disassemble10(i);
      10 <= p.op < 20 && Leads(Successors(i, pc), p, Roles10(p.op), pc)
  {}

  lemma FollowsRoles20(i: Instruction)
    requires InGroup20(i)
    ensures
      var p := Disassemble20(i);
      20 <= p.op < 30 && Follows(Reads20(i), Writes20(i), p, Roles20(p.op))
  {}

  lemma LeadsByRoles20(i: Instruction, pc: nat)
    requires InGroup20(i)
    ensures
      var p := Disassemble20(i);
      20 <= p.op < 30 && Leads(Successors(i, pc), p, Roles20(p.op), pc)
  {}

  lemma FollowsRoles30(i: Instruction)
    requires InGroup30(i)
    ensures
      var p := Disassemble30(i);
      30 <= p.op < 40 && Follows(Reads30(i), Writes30(i), p, Roles30(p.op))
  {}

  lemma LeadsByRoles30(i: Instruction, pc: nat)
    requires InGroup30(i)
    ensures
      var p := Disassemble30(i);
      30 <= p.op < 40 && Leads(Successors(i, pc), p, Roles30(p.op), pc)
  {}

  lemma FollowsRoles40(i: Instruction)
    requires InGroup40(i)
    ensures
      var p := Disassemble40(i);
      40 <= p.op < 50 && Follows(Reads40(i), Writes40(i), p, Roles40(p.op))
  {}

  lemma LeadsByRoles40(i: Instruction, pc: nat)
    requires InGroup40(i)
    ensures
      var p := Disassemble40(i);
      40 <= p.op < 50 && Leads(Successors(i, pc), p, Roles40(p.op), pc)
  {}

  lemma FollowsRoles50(i: Instruction)
    requires InGroup50(i)
    ensures
      var p := Disassemble50(i);
      50 <= p.op < 58 && Follows(Reads50(i), Writes50(i), p, Roles50(p.op))
  {}

  lemma LeadsByRoles50(i: Instruction, pc: nat)
    requires InGroup50(i)
    ensures
      var p := Disassemble50(i);
      50 <= p.op < 58 && Leads(Successors(i, pc), p, Roles50(p.op), pc)
  {}

  /** What is read and what is written are the operands with those roles, in wire order. */
  lemma AccessesFollowRoles(i: Instruction)
    ensures var p := Disassemble(i); p.op < OPCODE_COUNT && Follows(Reads(i), Writes(i), p, RolesOf(p.op))
  {
    hide Follows;
    hide Disassemble0, Disassemble10, Disassemble20, Disassemble30, Disassemble40, Disassemble50;
    hide Roles0, Roles10, Roles20, Roles30, Roles40, Roles50;
    hide Reads0, Reads10, Reads20, Reads30, Reads40, Reads50, Writes0, Writes10, Writes20, Writes30, Writes40, Writes50;
    if InGroup0(i) {
      FollowsRoles0(i);
    } else if InGroup10(i) {
      FollowsRoles10(i);
    } else if InGroup20(i) {
      FollowsRoles20(i);
    } else if InGroup30(i) {
      FollowsRoles30(i);
    } else if InGroup40(i) {
      FollowsRoles40(i);
    } else {
      FollowsRoles50(i);
    }
  }

  /** Control goes to the operand that is a target and to the next instruction unless it is diverted. */
  lemma SuccessorsFollowRoles(i: Instruction, pc: nat)
    ensures var p := Disassemble(i); p.op < OPCODE_COUNT && Leads(Successors(i, pc), p, RolesOf(p.op), pc)
  {
    hide Leads, Successors;
    hide Disassemble0, Disassemble10, Disassemble20, Disassemble30, Disassemble40, Disassemble50;
    hide Roles0, Roles10, Roles20, Roles30, Roles40, Roles50;
    if InGroup0(i) {
      LeadsByRoles0(i, pc);
    } else if InGroup10(i) {
      LeadsByRoles10(i, pc);
    } else if InGroup20(i) {
      LeadsByRoles20(i, pc);
    } else if InGroup30(i) {
      LeadsByRoles30(i, pc);
    } else if InGroup40(i) {
      LeadsByRoles40(i, pc);
    } else {
      LeadsByRoles50(i, pc);
    }
  }
}
