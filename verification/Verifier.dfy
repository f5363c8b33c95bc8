/** The structural verifier: operand checks, per-function checks, the fact-storage cap, and the
    certificates that make a module verified.
 */
module Verifier {
  import opened Base
  import opened Instructions
  import opened Bytecode
  import opened RegisterSets
  import opened Dataflow
  import opened Fixpoint
  import opened Handlers

  const MAX_REGISTERS: nat := 0x1_0000
  const MAX_INSTRUCTIONS: nat := 0x10_0000
  const MAX_HANDLERS: nat := 0x1_0000
  const MAX_CONSTANTS: nat := 0x10_0000
  const MAX_FUNCTIONS: nat := 0x10_0000
  const MAX_FACT_WORDS: nat := 0x80_0000

  /** What is wrong. The five aliasing errors of the instruction set are one case here: the
      instruction the error is located at tells them apart. */
  datatype ErrorKind =
    | EmptyModule
    | WorkLimitExceeded(work: nat)
    | TooManyConstants(count: nat)
    | TooManyFunctions(count: nat)
    | EntryFunctionOutOfBounds(entry: nat, count: nat)
    | EmptyFunction
    | TooManyInstructions(count: nat)
    | TooManyHandlers(count: nat)
    | RegisterCountOutOfBounds(count: nat)
    | ParameterCountExceedsRegisters
    | EntryRegistersExceedRegisterCount
    | FunctionNameOutOfBounds(constant: nat)
    | FunctionNameNotString(constant: nat)
    | BadHandler(fault: HandlerError)
    | RegisterOutOfBounds(register: nat)
    | ConstantOutOfBounds(constant: nat)
    | StringConstantExpected(constant: nat)
    | FunctionReferenceOutOfBounds(callee: nat)
    | JumpOutOfBounds(target: nat)
    | AliasedOperands(register: nat)
    | UninitializedRead(register: nat)

  datatype VerifyError = VerifyError(function_: Option<nat>, instruction: Option<nat>, kind: ErrorKind)

  // ---- one instruction

  predicate IsStringConstant(m: Module, c: nat) {
    c < |m.constants| && m.constants[c].Text?
  }

  predicate Holds(m: Module, f: Function, c: Check) {
    match c
    case InRegisters(r) => r < f.registerCount
    case InConstants(k) => k < |m.constants|
    case IsString(k) => IsStringConstant(m, k)
    case InFunctions(g) => g < |m.functions|
    case InCode(t) => t < |f.code|
    case Distinct(a, b) => a != b
  }

  function Fault(m: Module, f: Function, c: Check): ErrorKind
    requires !Holds(m, f, c)
  {
    match c
    case InRegisters(r) => RegisterOutOfBounds(r)
    case InConstants(k) => ConstantOutOfBounds(k)
    case IsString(k) => if k < |m.constants| then StringConstantExpected(k) else ConstantOutOfBounds(k)
    case InFunctions(g) => FunctionReferenceOutOfBounds(g)
    case InCode(t) => JumpOutOfBounds(t)
    case Distinct(a, _) => AliasedOperands(a)
  }

  function Targets(successors: seq<nat>): (checks: seq<Check>)
    ensures |checks| == |successors|
    ensures forall k :: 0 <= k < |successors| ==> checks[k] == InCode(successors[k])
  {
    seq(|successors|, k requires 0 <= k < |successors| => InCode(successors[k]))
  }

  /** Operand checks first, then every normal successor. */
  function InstructionChecks(i: Instruction, pc: nat): seq<Check> {
    OperandChecks(i) + Targets(Successors(i, pc))
  }

  predicate InstructionOk(m: Module, f: Function, pc: nat)
    requires pc < |f.code|
  {
    forall c :: c in InstructionChecks(f.code[pc], pc) ==> Holds(m, f, c)
  }

  /** The position of the first failing check, from `k` on; it decides the error. */
  function FirstFailing(m: Module, f: Function, checks: seq<Check>, k: nat := 0): (e: Option<nat>)
    requires k <= |checks|
    ensures e.None? <==> forall j :: k <= j < |checks| ==> Holds(m, f, checks[j])
    ensures e.Some? ==>
              && k <= e.value < |checks|
              && !Holds(m, f, checks[e.value])
              && forall j :: k <= j < e.value ==> Holds(m, f, checks[j])
    decreases |checks| - k
  {
    if k == |checks| then None
    else if !Holds(m, f, checks[k]) then Some(k)
    else FirstFailing(m, f, checks, k + 1)
  }

  lemma ChecksCoverRegisters0(i: Instruction, r: Register)
    requires InGroup0(i)
    ensures r in Reads0(i) || r in Writes0(i) <==> InRegisters(r) in OperandChecks0(i)
  {}

  lemma ChecksCoverRegisters10(i: Instruction, r: Register)
    requires InGroup10(i)
    ensures r in Reads10(i) || r in Writes10(i) <==> InRegisters(r) in OperandChecks10(i)
  {}

  lemma ChecksCoverRegisters20(i: Instruction, r: Register)
    requires InGroup20(i)
    ensures r in Reads20(i) || r in Writes20(i) <==> InRegisters(r) in OperandChecks20(i)
  {}

  lemma ChecksCoverRegisters30(i: Instruction, r: Register)
    requires InGroup30(i)
    ensures r in Reads30(i) || r in Writes30(i) <==> InRegisters(r) in OperandChecks30(i)
  {}

  lemma ChecksCoverRegisters40(i: Instruction, r: Register)
    requires InGroup40(i)
    ensures r in Reads40(i) || r in Writes40(i) <==> InRegisters(r) in OperandChecks40(i)
  {}

  lemma ChecksCoverRegisters50(i: Instruction, r: Register)
    requires InGroup50(i)
    ensures r in Reads50(i) || r in Writes50(i) <==> InRegisters(r) in OperandChecks50(i)
  {}

  /** The check table bounds exactly the registers that the dataflow tables read or write. */
  lemma ChecksCoverRegisters(i: Instruction, r: Register)
    ensures r in Reads(i) || r in Writes(i) <==> InRegisters(r) in OperandChecks(i)
  {
    hide Reads0, Reads10, Reads20, Reads30, Reads40, Reads50, Writes0, Writes10, Writes20, Writes30, Writes40, Writes50;
    hide OperandChecks0, OperandChecks10, OperandChecks20, OperandChecks30, OperandChecks40, OperandChecks50;
    if InGroup0(i) {
      ChecksCoverRegisters0(i, r);
    } else if InGroup10(i) {
      ChecksCoverRegisters10(i, r);
    } else if InGroup20(i) {
      ChecksCoverRegisters20(i, r);
    } else if InGroup30(i) {
      ChecksCoverRegisters30(i, r);
    } else if InGroup40(i) {
      ChecksCoverRegisters40(i, r);
    } else {
      ChecksCoverRegisters50(i, r);
    }
  }

  // ---- one function

  predicate NameOk(m: Module, f: Function) {
    f.name.Some? ==> IsStringConstant(m, f.name.value)
  }

  /** The conditions on a function's sizes and name. */
  predicate ShapeOk(m: Module, f: Function) {
    && 0 < |f.code| <= MAX_INSTRUCTIONS
    && |f.handlers| <= MAX_HANDLERS
    && f.registerCount <= MAX_REGISTERS
    && f.captureCount + f.parameterCount <= f.registerCount
    && NameOk(m, f)
  }

  /** Everything but definite initialization. */
  predicate Structured(m: Module, f: Function) {
    && ShapeOk(m, f)
    && HandlersOk(f)
    && forall pc :: 0 <= pc < |f.code| ==> InstructionOk(m, f, pc)
  }

  /** A function verifies exactly when it is well structured and all its runs are safe. */
  ghost predicate FunctionOk(m: Module, f: Function) {
    Structured(m, f) && RunsSafely(f)
  }

  lemma CheckedIsInBounds(m: Module, f: Function, pc: nat)
    requires pc < |f.code| && InstructionOk(m, f, pc)
    ensures forall r :: r in Reads(f.code[pc]) || r in Writes(f.code[pc]) ==> r < f.registerCount
    ensures forall s :: s in Successors(f.code[pc], pc) ==> s < |f.code|
  {
    var i := f.code[pc];
    var targets := Targets(Successors(i, pc));
    assert forall c :: c in OperandChecks(i) || c in targets ==> c in InstructionChecks(i, pc);
    forall r | r in Reads(i) || r in Writes(i)
      ensures r < f.registerCount
    {
      ChecksCoverRegisters(i, r);
      assert Holds(m, f, InRegisters(r));
    }
    forall s | s in Successors(i, pc)
      ensures s < |f.code|
    {
      var k :| 0 <= k < |Successors(i, pc)| && Successors(i, pc)[k] == s;
      assert targets[k] == InCode(s);
      assert Holds(m, f, InCode(s));
    }
  }

  /** The structural checks establish everything the dataflow pass relies on. */
  lemma StructuredIsWired(m: Module, f: Function)
    requires Structured(m, f)
    ensures Wired(f)
  {
    forall pc | 0 <= pc < |f.code|
      ensures forall r :: r in Reads(f.code[pc]) || r in Writes(f.code[pc]) ==> r < f.registerCount
      ensures forall s :: s in Successors(f.code[pc], pc) ==> s < |f.code|
    {
      CheckedIsInBounds(m, f, pc);
    }
  }

  /** The first check that fails calls for this error kind. */
  ghost predicate CheckFails(m: Module, f: Function, checks: seq<Check>, kind: ErrorKind) {
    exists k :: 0 <= k < |checks| && !Holds(m, f, checks[k]) && kind == Fault(m, f, checks[k])
                && forall j :: 0 <= j < k ==> Holds(m, f, checks[j])
  }

  /** The order in which sizes and name are checked. */
  datatype Stage = NonEmpty | CodeLength | HandlerTableLength | RegisterFile | Parameters | EntryRegisters
                 | FunctionName

  /** The checks before a stage have all passed. */
  predicate Reaches(f: Function, stage: Stage) {
    && (stage != NonEmpty ==> f.code != [])
    && (stage != NonEmpty && stage != CodeLength ==> |f.code| <= MAX_INSTRUCTIONS)
    && (stage in {RegisterFile, Parameters, EntryRegisters, FunctionName} ==> |f.handlers| <= MAX_HANDLERS)
    && (stage in {Parameters, EntryRegisters, FunctionName} ==> f.registerCount <= MAX_REGISTERS)
    && (stage in {EntryRegisters, FunctionName} ==> f.parameterCount <= f.registerCount)
    && (stage == FunctionName ==> f.captureCount + f.parameterCount <= f.registerCount)
  }

  /** A size or name check that fails, with every check before it passed. */
  ghost predicate ShapeFaultIsReal(m: Module, f: Function, kind: ErrorKind) {
    match kind
    case EmptyFunction => f.code == []
    case TooManyInstructions(count) => Reaches(f, CodeLength) && count == |f.code| > MAX_INSTRUCTIONS
    case TooManyHandlers(count) => Reaches(f, HandlerTableLength) && count == |f.handlers| > MAX_HANDLERS
    case RegisterCountOutOfBounds(count) => Reaches(f, RegisterFile) && count == f.registerCount > MAX_REGISTERS
    case ParameterCountExceedsRegisters => Reaches(f, Parameters) && f.parameterCount > f.registerCount
    case EntryRegistersExceedRegisterCount =>
      Reaches(f, EntryRegisters) && f.captureCount + f.parameterCount > f.registerCount
    case FunctionNameOutOfBounds(c) => Reaches(f, FunctionName) && f.name == Some(c) && c >= |m.constants|
    case FunctionNameNotString(c) =>
      Reaches(f, FunctionName) && f.name == Some(c) && c < |m.constants| && !m.constants[c].Text?
    case _ => false
  }

  /** The reported fault is there, and it is the first one in checking order. */
  ghost predicate FaultIsReal(m: Module, f: Function, e: VerifyError) {
    match e.instruction
    case None =>
      if e.kind.BadHandler? then ShapeOk(m, f) && HandlerErrorIsReal(f, e.kind.fault)
      else ShapeFaultIsReal(m, f, e.kind)
    case Some(pc) =>
      && pc < |f.code|
      && if e.kind.UninitializedRead?
         then
           && Structured(m, f)
           && e.kind.register < U32_LIMIT && IsFirstUninitializedRead(f, ReadBeforeWrite(pc, e.kind.register))
         else
           && ShapeOk(m, f) && HandlersOk(f)
           && (forall q :: 0 <= q < pc ==> InstructionOk(m, f, q))
           && CheckFails(m, f, InstructionChecks(f.code[pc], pc), e.kind)
  }

  /** Whatever is reported of a function, the function does not verify. */
  lemma FaultRejects(m: Module, f: Function, e: VerifyError)
    requires FaultIsReal(m, f, e)
    ensures !FunctionOk(m, f)
  {
    hide HandlersOk, HandlerErrorIsReal, InstructionChecks, Holds, Reads;
    match e.instruction
    case None =>
      if e.kind.BadHandler? { HandlerErrorRejects(f, e.kind.fault); }
    case Some(pc) =>
      if !e.kind.UninitializedRead? {
        var checks := InstructionChecks(f.code[pc], pc);
        var k :| 0 <= k < |checks| && !Holds(m, f, checks[k]) && e.kind == Fault(m, f, checks[k]);
        assert checks[k] in checks;
        assert !InstructionOk(m, f, pc);
      }
  }

  /** The checks made before any instruction is looked at, in order. */
  method VerifyShape(m: Module, f: Function) returns (e: Option<ErrorKind>)
    ensures e.None? <==> ShapeOk(m, f)
    ensures e.Some? ==> ShapeFaultIsReal(m, f, e.value)
  {
    if |f.code| == 0 { return Some(EmptyFunction); }
    if |f.code| > MAX_INSTRUCTIONS { return Some(TooManyInstructions(|f.code|)); }
    if |f.handlers| > MAX_HANDLERS { return Some(TooManyHandlers(|f.handlers|)); }
    if f.registerCount > MAX_REGISTERS { return Some(RegisterCountOutOfBounds(f.registerCount)); }
    if f.parameterCount > f.registerCount { return Some(ParameterCountExceedsRegisters); }
    if f.captureCount + f.parameterCount > f.registerCount { return Some(EntryRegistersExceedRegisterCount); }
    if f.name.Some? {
      if f.name.value >= |m.constants| { return Some(FunctionNameOutOfBounds(f.name.value)); }
      if !m.constants[f.name.value].Text? { return Some(FunctionNameNotString(f.name.value)); }
    }
    e := None;
  }

  method VerifyInstruction(m: Module, f: Function, pc: nat) returns (e: Option<ErrorKind>)
    requires pc < |f.code|
    ensures e.None? <==> InstructionOk(m, f, pc)
    ensures e.Some? ==> CheckFails(m, f, InstructionChecks(f.code[pc], pc), e.value)
  {
    var checks := InstructionChecks(f.code[pc], pc);
    var failing := FirstFailing(m, f, checks);
    if failing.Some? {
      assert checks[failing.value] in checks;
      return Some(Fault(m, f, checks[failing.value]));
    }
    e := None;
  }

  method VerifyInstructions(m: Module, f: Function) returns (e: Option<(nat, ErrorKind)>)
    ensures e.None? <==> forall pc :: 0 <= pc < |f.code| ==> InstructionOk(m, f, pc)
    ensures e.Some? ==>
              && e.value.0 < |f.code|
              && (forall q :: 0 <= q < e.value.0 ==> InstructionOk(m, f, q))
              && CheckFails(m, f, InstructionChecks(f.code[e.value.0], e.value.0), e.value.1)
  {
    for pc := 0 to |f.code|
      invariant forall q :: 0 <= q < pc ==> InstructionOk(m, f, q)
    {
      var fault := VerifyInstruction(m, f, pc);
      if fault.Some? {
        return Some((pc, fault.value));
      }
    }
    e := None;
  }

  lemma OperandKind(m: Module, f: Function, pc: nat, kind: ErrorKind)
    requires pc < |f.code| && CheckFails(m, f, InstructionChecks(f.code[pc], pc), kind)
    ensures !kind.UninitializedRead?
  {}

  /** One function: a certificate if and only if it is well structured and all its runs are safe. */
  method VerifyFunction(m: Module, index: nat, f: Function) returns (r: Result<Certificate, VerifyError>)
    ensures r.Ok? <==> FunctionOk(m, f)
    ensures r.Ok? ==> IsCertificate(f, r.value)
    ensures r.Err? ==> r.error.function_ == Some(index) && FaultIsReal(m, f, r.error)
  {
    var shape := VerifyShape(m, f);
    if shape.Some? { return Err(VerifyError(Some(index), None, shape.value)); }
    var handler := VerifyHandlers(f);
    if handler.Some? { return Err(VerifyError(Some(index), None, BadHandler(handler.value))); }
    var operand := VerifyInstructions(m, f);
    if operand.Some? {
      OperandKind(m, f, operand.value.0, operand.value.1);
      return Err(VerifyError(Some(index), Some(operand.value.0), operand.value.1));
    }
    StructuredIsWired(m, f);
    var initialized := DefiniteInitialization(f);
    match initialized
    case Ok(certificate) => r := Ok(certificate);
    case Err(e) => r := Err(VerifyError(Some(index), Some(e.pc), UninitializedRead(e.register)));
  }

  // ---- the fact-storage cap

  /** 64-bit words the facts of these functions need, as an unbounded sum. */
  function FactWords(fs: seq<Function>): nat {
    if fs == [] then 0
    else FactWords(fs[..|fs| - 1]) + |fs[|fs| - 1].code| * WordsFor(fs[|fs| - 1].registerCount)
  }

  lemma {:induction false} FactWordsOfPrefix(fs: seq<Function>, n: nat)
    requires n <= |fs|
    ensures FactWords(fs[..n]) <= FactWords(fs)
    decreases |fs|
  {
    if n < |fs| {
      var shorter := fs[..|fs| - 1];
      FactWordsOfPrefix(shorter, n);
      assert shorter[..n] == fs[..n];
    } else {
      assert fs[..n] == fs;
    }
  }

  function Saturate(n: nat): nat {
    if n < WORD_LIMIT then n else WORD_LIMIT - 1
  }

  /** The saturated sum over the shortest prefix that goes over the cap. */
  ghost predicate FirstExcess(fs: seq<Function>, words: nat) {
    exists n :: 0 <= n < |fs| && FactWords(fs[..n]) <= MAX_FACT_WORDS < words == Saturate(FactWords(fs[..n + 1]))
  }

  /** Saturating 64-bit accumulation with an early exit: rejects exactly when the true sum is over. */
  method CheckFactWords(fs: seq<Function>) returns (e: Option<nat>)
    ensures e.Some? <==> FactWords(fs) > MAX_FACT_WORDS
    ensures e.Some? ==> FirstExcess(fs, e.value)
  {
    var total := 0;
    for i := 0 to |fs|
      invariant total == FactWords(fs[..i]) <= MAX_FACT_WORDS
    {
      var words := Saturate(|fs[i].code| * WordsFor(fs[i].registerCount));
      assert fs[..i + 1][..i] == fs[..i];
      total := Saturate(total + words);
      FactWordsOfPrefix(fs, i + 1);
      if total > MAX_FACT_WORDS { return Some(total); }
    }
    assert fs[..|fs|] == fs;
    e := None;
  }

  // ---- the module

  /** The conditions on the module as a whole. */
  predicate ModuleShapeOk(m: Module) {
    && 0 < |m.functions| <= MAX_FUNCTIONS
    && |m.constants| <= MAX_CONSTANTS
    && m.entry < |m.functions|
    && FactWords(m.functions) <= MAX_FACT_WORDS
  }

  ghost predicate ModuleOk(m: Module) {
    && ModuleShapeOk(m)
    && forall i :: 0 <= i < |m.functions| ==> FunctionOk(m, m.functions[i])
  }

  /** A module together with one certificate per function. */
  datatype VerifiedModule = VerifiedModule(code: Module, certificates: seq<Certificate>)

  /** What the verified typestate stands for. */
  ghost predicate IsVerified(v: VerifiedModule) {
    && ModuleOk(v.code)
    && |v.certificates| == |v.code.functions|
    && forall i :: 0 <= i < |v.certificates| ==> IsCertificate(v.code.functions[i], v.certificates[i])
  }

  lemma VerifiedUnique(v: VerifiedModule, w: VerifiedModule)
    requires IsVerified(v) && IsVerified(w) && v.code == w.code
    ensures v == w
  {
    forall i | 0 <= i < |v.certificates|
      ensures v.certificates[i] == w.certificates[i]
    {
      CertificateUnique(v.code.functions[i], v.certificates[i], w.certificates[i]);
    }
  }

  method VerifyFunctions(m: Module) returns (r: Result<seq<Certificate>, VerifyError>)
    ensures r.Ok? <==> forall i :: 0 <= i < |m.functions| ==> FunctionOk(m, m.functions[i])
    ensures r.Ok? ==> |r.value| == |m.functions|
    ensures r.Ok? ==> forall i :: 0 <= i < |r.value| ==> IsCertificate(m.functions[i], r.value[i])
    ensures r.Err? ==>
              && r.error.function_.Some? && r.error.function_.value < |m.functions|
              && FaultIsReal(m, m.functions[r.error.function_.value], r.error)
              && forall j :: 0 <= j < r.error.function_.value ==> FunctionOk(m, m.functions[j])
  {
    var certificates: seq<Certificate> := [];
    for i := 0 to |m.functions|
      invariant |certificates| == i
      invariant forall j :: 0 <= j < i ==> FunctionOk(m, m.functions[j])
      invariant forall j :: 0 <= j < i ==> IsCertificate(m.functions[j], certificates[j])
    {
      var c := VerifyFunction(m, i, m.functions[i]);
      if c.Err? { return Err(c.error); }
      certificates := certificates + [c.value];
    }
    r := Ok(certificates);
  }

  /** The first fault in checking order: of the module as a whole, or of its first faulty function. */
  ghost predicate ErrorIsReal(m: Module, e: VerifyError) {
    match e.function_
    case Some(i) =>
      && ModuleShapeOk(m)
      && i < |m.functions| && FaultIsReal(m, m.functions[i], e)
      && forall j :: 0 <= j < i ==> FunctionOk(m, m.functions[j])
    case None =>
      match e.kind
      case EmptyModule => m.functions == []
      case TooManyConstants(count) => m.functions != [] && count == |m.constants| > MAX_CONSTANTS
      case TooManyFunctions(count) => |m.constants| <= MAX_CONSTANTS && count == |m.functions| > MAX_FUNCTIONS
      case EntryFunctionOutOfBounds(entry, count) =>
        && |m.constants| <= MAX_CONSTANTS && 0 < count <= MAX_FUNCTIONS
        && entry == m.entry && count == |m.functions| && entry >= count
      case WorkLimitExceeded(words) =>
        && |m.constants| <= MAX_CONSTANTS && m.entry < |m.functions| <= MAX_FUNCTIONS
        && FirstExcess(m.functions, words)
      case _ => false
  }

  /** Whatever is reported of a module, the module does not verify. */
  lemma ErrorRejects(m: Module, e: VerifyError)
    requires ErrorIsReal(m, e)
    ensures !ModuleOk(m)
  {
    hide FaultIsReal, FunctionOk, FactWords;
    if e.function_.Some? {
      FaultRejects(m, m.functions[e.function_.value], e);
    } else if e.kind.WorkLimitExceeded? {
      ExcessIsOver(m.functions, e.kind.work);
    }
  }

  lemma ExcessIsOver(fs: seq<Function>, words: nat)
    requires FirstExcess(fs, words)
    ensures FactWords(fs) > MAX_FACT_WORDS
  {
    var n :| 0 <= n < |fs| && FactWords(fs[..n]) <= MAX_FACT_WORDS < words == Saturate(FactWords(fs[..n + 1]));
    FactWordsOfPrefix(fs, n + 1);
  }

  /** The only route to a verified module; it is taken exactly by the modules that satisfy `ModuleOk`. */
  method VerifyModule(m: Module) returns (r: Result<VerifiedModule, VerifyError>)
    ensures r.Ok? <==> ModuleOk(m)
    ensures r.Ok? ==> r.value.code == m && IsVerified(r.value)
    ensures r.Err? ==> ErrorIsReal(m, r.error)
  {
    if |m.functions| == 0 { return Err(VerifyError(None, None, EmptyModule)); }
    if |m.constants| > MAX_CONSTANTS { return Err(VerifyError(None, None, TooManyConstants(|m.constants|))); }
    if |m.functions| > MAX_FUNCTIONS { return Err(VerifyError(None, None, TooManyFunctions(|m.functions|))); }
    if m.entry >= |m.functions| {
      return Err(VerifyError(None, None, EntryFunctionOutOfBounds(m.entry, |m.functions|)));
    }
    var over := CheckFactWords(m.functions);
    if over.Some? { return Err(VerifyError(None, None, WorkLimitExceeded(over.value))); }
    var certificates := VerifyFunctions(m);
    match certificates
    case Err(e) => r := Err(e);
    case Ok(cs) => r := Ok(VerifiedModule(m, cs));
  }

  // ---- what verification buys

  /** The words a list of facts takes up. */
  function WordsIn(facts: seq<seq<Word>>): nat {
    if facts == [] then 0 else WordsIn(facts[..|facts| - 1]) + |facts[|facts| - 1]|
  }

  function StoredWords(cs: seq<Certificate>): nat {
    if cs == [] then 0 else StoredWords(cs[..|cs| - 1]) + WordsIn(cs[|cs| - 1].facts)
  }

  lemma {:induction false} UniformWords(facts: seq<seq<Word>>, width: nat)
    requires forall k :: 0 <= k < |facts| ==> |facts[k]| == width
    ensures WordsIn(facts) == |facts| * width
  {
    if facts != [] {
      UniformWords(facts[..|facts| - 1], width);
      assert |facts| * width == (|facts| - 1) * width + width;
    }
  }

  lemma {:induction false} CertificatesTakeFactWords(fs: seq<Function>, cs: seq<Certificate>)
    requires |fs| == |cs|
    requires forall i :: 0 <= i < |fs| ==>
               |cs[i].facts| == |fs[i].code| && forall pc :: 0 <= pc < |cs[i].facts| ==>
                 |cs[i].facts[pc]| == WordsFor(fs[i].registerCount)
    ensures StoredWords(cs) == FactWords(fs)
    decreases |fs|
  {
    if fs != [] {
      var n := |fs| - 1;
      CertificatesTakeFactWords(fs[..n], cs[..n]);
      UniformWords(cs[n].facts, WordsFor(fs[n].registerCount));
    }
  }

  /** The certificates of a verified module together take at most 2^23 words. */
  lemma VerifiedStorageIsBounded(v: VerifiedModule)
    requires IsVerified(v)
    ensures StoredWords(v.certificates) <= 0x80_0000
  {
    hide OnAllRuns, FunctionOk;
    forall i | 0 <= i < |v.code.functions|
      ensures |v.certificates[i].facts| == |v.code.functions[i].code|
      ensures forall pc :: 0 <= pc < |v.certificates[i].facts| ==>
                |v.certificates[i].facts[pc]| == WordsFor(v.code.functions[i].registerCount)
    {
      assert IsCertificate(v.code.functions[i], v.certificates[i]);
    }
    CertificatesTakeFactWords(v.code.functions, v.certificates);
  }

  /** A verified module has an entry function, and it can start. */
  lemma VerifiedEntryStarts(v: VerifiedModule)
    requires IsVerified(v)
    ensures v.code.entry < |v.code.functions|
    ensures var f := v.code.functions[v.code.entry]; f.code != [] && IsRun(f, [Start(f)])
  {
    assert FunctionOk(v.code, v.code.functions[v.code.entry]);
  }

  /** Soundness over whole runs: in a verified module every point of every run of every function is a
      real instruction, and every register it reads has been written. */
  lemma VerifiedRunsAreSafe(v: VerifiedModule, i: nat, run: seq<State>)
    requires IsVerified(v) && i < |v.code.functions| && IsRun(v.code.functions[i], run)
    ensures forall k :: 0 <= k < |run| ==>
              && 0 <= run[k].pc < |v.code.functions[i].code|
              && forall r :: r in Reads(v.code.functions[i].code[run[k].pc]) ==> r in run[k].init
  {
    hide Structured, Step, Reads, IsCertificate, Start, FactWords;
    var f := v.code.functions[i];
    assert FunctionOk(v.code, f);
    forall k | 0 <= k < |run|
      ensures 0 <= run[k].pc < |f.code| && forall r :: r in Reads(f.code[run[k].pc]) ==> r in run[k].init
    {
      var prefix := run[..k + 1];
      assert IsRun(f, prefix) && Last(prefix) == run[k];
    }
  }
}
