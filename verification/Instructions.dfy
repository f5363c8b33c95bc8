/** The instruction set: operands, wire layout, and the register and control-flow
    tables every later pass relies on.
 */
module Instructions {
  import opened Base

  datatype UnaryOp =
    | Void | TypeOf | Plus | Negate | BitwiseNot | LogicalNot

  datatype BinaryOp =
    | Add | Subtract | Multiply | Divide | Remainder | Exponent | BitAnd | BitOr | BitXor |
    ShiftLeft | ShiftRight | UnsignedShiftRight | Equal | NotEqual | StrictEqual | StrictNotEqual |
    LessThan | LessThanOrEqual | GreaterThan | GreaterThanOrEqual | InstanceOf | In

  datatype IteratorKind =
    | SyncIterator | AsyncIterator | KeyIterator

  datatype IteratorCloseMode =
    | Propagate | PreserveAbrupt

  datatype DisposeHint =
    | SyncDispose | AsyncDispose

  datatype AccessorKind =
    | Getter | Setter

  datatype DescriptorSlot =
    | ValueSlot | GetterSlot | SetterSlot

  type Register = U32
  type ConstantId = U32
  type FunctionId = U32
  type Pc = U32

  /** The instruction algebra; constructors are listed by wire tag, operands in wire order. */
  datatype Instruction =
    | LoadConst(dst: Register, constant: ConstantId)
    | Move(dst: Register, src: Register)
    | Unary(dst: Register, unary: UnaryOp, operand: Register)
    | Binary(dst: Register, binary: BinaryOp, left: Register, right: Register)
    | CreateObject(dst: Register)
    | CreateArray(dst: Register)
    | CreateClosure(dst: Register, closure: FunctionId, captures: Register)
    | GetProperty(dst: Register, base: Register, key: Register)
    | SetProperty(base: Register, key: Register, value: Register)
    | DeleteProperty(dst: Register, base: Register, key: Register)
    | DefineAccessor(base: Register, key: Register, accessor: Register, half: AccessorKind)
    | Call(dst: Register, callee: Register, thisValue: Register, arguments: Register)
    | Construct(dst: Register, callee: Register, arguments: Register)
    | LoadGlobal(dst: Register, name: ConstantId)
    | StoreGlobal(name: ConstantId, value: Register)
    | TypeOfGlobal(dst: Register, name: ConstantId)
    | LoadThis(dst: Register)
    | LoadArguments(dst: Register)
    | LoadNewTarget(dst: Register)
    | ArrayPush(sequence: Register, value: Register)
    | ArrayExtend(sequence: Register, iterable: Register)
    | ObjectSpread(target: Register, source: Register)
    | SetPrototype(base: Register, prototype: Register)
    | CreatePrivateName(dst: Register, description: ConstantId)
    | CreateRegExp(dst: Register, pattern: ConstantId, flags: ConstantId)
    | GetIterator(dst: Register, src: Register, protocol: IteratorKind)
    | IteratorNext(done: Register, value: Register, cursor: Register)
    | Jump(target: Pc)
    | JumpIfTrue(condition: Register, target: Pc)
    | JumpIfFalse(condition: Register, target: Pc)
    | Return(value: Register)
    | Throw(value: Register)
    | Suspend(dst: Register, src: Register, resume: Pc, mode: Register)
    | Import(dst: Register, specifier: ConstantId)
    | Export(name: ConstantId, src: Register)
    | Halt
    | CreateCell(dst: Register)
    | Await(dst: Register, src: Register, resume: Pc)
    | IteratorStep(dst: Register, cursor: Register)
    | IteratorResult(done: Register, value: Register, result: Register)
    | IteratorClose(result: Register, called: Register, cursor: Register, policy: IteratorCloseMode)
    | RequireCloseResult(result: Register, called: Register)
    | ToObject(dst: Register, src: Register)
    | ImportDynamic(dst: Register, specifier: Register)
    | LoadImportMeta(dst: Register)
    | DisposeCapture(disposer: Register, disposal: Register, src: Register, hint: DisposeHint)
    | SuppressError(dst: Register, error: Register, suppressed: Register)
    | ConstructWithNewTarget(dst: Register, callee: Register, newTarget: Register, arguments: Register)
    | DefineDataProperty(base: Register, key: Register, value: Register)
    | LoadOwnDescriptorSlot(dst: Register, base: Register, key: Register, slot: DescriptorSlot)
    | DefineOwnDescriptorSlot(base: Register, key: Register, src: Register, slot: DescriptorSlot)
    | WithHasBinding(dst: Register, base: Register, key: Register)
    | GetSuper(dst: Register, home: Register, receiver: Register, key: Register)
    | SetSuper(home: Register, receiver: Register, key: Register, value: Register)
    | ImportAttributes(dst: Register, specifier: ConstantId, attributes: Register)
    | ImportDynamicAttributes(dst: Register, specifier: Register, attributes: Register)
    | CopyDataProperties(target: Register, source: Register, excluded: Register)
    | GetTemplateObject(dst: Register, cooked: Register, raw: Register)

  /** Registers read before executing, in visiting order. */
  function Reads(i: Instruction): seq<Register> {
    if InGroup0(i) then Reads0(i)
    else if InGroup10(i) then Reads10(i)
    else if InGroup20(i) then Reads20(i)
    else if InGroup30(i) then Reads30(i)
    else if InGroup40(i) then Reads40(i)
    else Reads50(i)
  }

  function Reads0(i: Instruction): seq<Register>
    requires InGroup0(i)
  {
    match i
    case LoadConst(_, _) => []
    case Move(_, src) => [src]
    case Unary(_, _, operand) => [operand]
    case Binary(_, _, left, right) => [left, right]
    case CreateObject(_) => []
    case CreateArray(_) => []
    case CreateClosure(_, _, captures) => [captures]
    case GetProperty(_, base, key) => [base, key]
    case SetProperty(base, key, value) => [base, key, value]
    case DeleteProperty(_, base, key) => [base, key]
  }

  function Reads10(i: Instruction): seq<Register>
    requires InGroup10(i)
  {
    match i
    case DefineAccessor(base, key, accessor, _) => [base, key, accessor]
    case Call(_, callee, thisValue, arguments) => [callee, thisValue, arguments]
    case Construct(_, callee, arguments) => [callee, arguments]
    case LoadGlobal(_, _) => []
    case StoreGlobal(_, value) => [value]
    case TypeOfGlobal(_, _) => []
    case LoadThis(_) => []
    case LoadArguments(_) => []
    case LoadNewTarget(_) => []
    case ArrayPush(sequence, value) => [sequence, value]
  }

  function Reads20(i: Instruction): seq<Register>
    requires InGroup20(i)
  {
    match i
    case ArrayExtend(sequence, iterable) => [sequence, iterable]
    case ObjectSpread(target, source) => [target, source]
    case SetPrototype(base, prototype) => [base, prototype]
    case CreatePrivateName(_, _) => []
    case CreateRegExp(_, _, _) => []
    case GetIterator(_, src, _) => [src]
    case IteratorNext(_, _, cursor) => [cursor]
    case Jump(_) => []
    case JumpIfTrue(condition, _) => [condition]
    case JumpIfFalse(condition, _) => [condition]
  }

  function Reads30(i: Instruction): seq<Register>
    requires InGroup30(i)
  {
    match i
    case Return(value) => [value]
    case Throw(value) => [value]
    case Suspend(_, src, _, _) => [src]
    case Import(_, _) => []
    case Export(_, src) => [src]
    case Halt => []
    case CreateCell(_) => []
    case Await(_, src, _) => [src]
    case IteratorStep(_, cursor) => [cursor]
    case IteratorResult(_, _, result) => [result]
  }

  function Reads40(i: Instruction): seq<Register>
    requires InGroup40(i)
  {
    match i
    case IteratorClose(_, _, cursor, _) => [cursor]
    case RequireCloseResult(result, called) => [result, called]
    case ToObject(_, src) => [src]
    case ImportDynamic(_, specifier) => [specifier]
    case LoadImportMeta(_) => []
    case DisposeCapture(_, _, src, _) => [src]
    case SuppressError(_, error, suppressed) => [error, suppressed]
    case ConstructWithNewTarget(_, callee, newTarget, arguments) => [callee, newTarget, arguments]
    case DefineDataProperty(base, key, value) => [base, key, value]
    case LoadOwnDescriptorSlot(_, base, key, _) => [base, key]
  }

  function Reads50(i: Instruction): seq<Register>
    requires InGroup50(i)
  {
    match i
    case DefineOwnDescriptorSlot(base, key, src, _) => [base, key, src]
    case WithHasBinding(_, base, key) => [base, key]
    case GetSuper(_, home, receiver, key) => [home, receiver, key]
    case SetSuper(home, receiver, key, value) => [home, receiver, key, value]
    case ImportAttributes(_, _, attributes) => [attributes]
    case ImportDynamicAttributes(_, specifier, attributes) => [specifier, attributes]
    case CopyDataProperties(target, source, excluded) => [target, source, excluded]
    case GetTemplateObject(_, cooked, raw) => [cooked, raw]
  }

  /** Registers defined by executing: none, one or two. */
  function Writes(i: Instruction): seq<Register> {
    if InGroup0(i) then Writes0(i)
    else if InGroup10(i) then Writes10(i)
    else if InGroup20(i) then Writes20(i)
    else if InGroup30(i) then Writes30(i)
    else if InGroup40(i) then Writes40(i)
    else Writes50(i)
  }

  function Writes0(i: Instruction): seq<Register>
    requires InGroup0(i)
  {
    match i
    case LoadConst(dst, _) => [dst]
    case Move(dst, _) => [dst]
    case Unary(dst, _, _) => [dst]
    case Binary(dst, _, _, _) => [dst]
    case CreateObject(dst) => [dst]
    case CreateArray(dst) => [dst]
    case CreateClosure(dst, _, _) => [dst]
    case GetProperty(dst, _, _) => [dst]
    case SetProperty(_, _, _) => []
    case DeleteProperty(dst, _, _) => [dst]
  }

  function Writes10(i: Instruction): seq<Register>
    requires InGroup10(i)
  {
    match i
    case DefineAccessor(_, _, _, _) => []
    case Call(dst, _, _, _) => [dst]
    case Construct(dst, _, _) => [dst]
    case LoadGlobal(dst, _) => [dst]
    case StoreGlobal(_, _) => []
    case TypeOfGlobal(dst, _) => [dst]
    case LoadThis(dst) => [dst]
    case LoadArguments(dst) => [dst]
    case LoadNewTarget(dst) => [dst]
    case ArrayPush(_, _) => []
  }

  function Writes20(i: Instruction): seq<Register>
    requires InGroup20(i)
  {
    match i
    case ArrayExtend(_, _) => []
    case ObjectSpread(_, _) => []
    case SetPrototype(_, _) => []
    case CreatePrivateName(dst, _) => [dst]
    case CreateRegExp(dst, _, _) => [dst]
    case GetIterator(dst, _, _) => [dst]
    case IteratorNext(done, value, _) => [done, value]
    case Jump(_) => []
    case JumpIfTrue(_, _) => []
    case JumpIfFalse(_, _) => []
  }

  function Writes30(i: Instruction): seq<Register>
    requires InGroup30(i)
  {
    match i
    case Return(_) => []
    case Throw(_) => []
    case Suspend(dst, _, _, mode) => [dst, mode]
    case Import(dst, _) => [dst]
    case Export(_, _) => []
    case Halt => []
    case CreateCell(dst) => [dst]
    case Await(dst, _, _) => [dst]
    case IteratorStep(dst, _) => [dst]
    case IteratorResult(done, value, _) => [done, value]
  }

  function Writes40(i: Instruction): seq<Register>
    requires InGroup40(i)
  {
    match i
    case IteratorClose(result, called, _, _) => [result, called]
    case RequireCloseResult(_, _) => []
    case ToObject(dst, _) => [dst]
    case ImportDynamic(dst, _) => [dst]
    case LoadImportMeta(dst) => [dst]
    case DisposeCapture(disposer, disposal, _, _) => [disposer, disposal]
    case SuppressError(dst, _, _) => [dst]
    case ConstructWithNewTarget(dst, _, _, _) => [dst]
    case DefineDataProperty(_, _, _) => []
    case LoadOwnDescriptorSlot(dst, _, _, _) => [dst]
  }

  function Writes50(i: Instruction): seq<Register>
    requires InGroup50(i)
  {
    match i
    case DefineOwnDescriptorSlot(_, _, _, _) => []
    case WithHasBinding(dst, _, _) => [dst]
    case GetSuper(dst, _, _, _) => [dst]
    case SetSuper(_, _, _, _) => []
    case ImportAttributes(dst, _, _) => [dst]
    case ImportDynamicAttributes(dst, _, _) => [dst]
    case CopyDataProperties(_, _, _) => []
    case GetTemplateObject(dst, _, _) => [dst]
  }

  /** Normal-control successors; a terminator has none. */
  function Successors(i: Instruction, pc: nat): seq<nat> {
    match i
    case Jump(target) => [target]
    case JumpIfTrue(_, target) => [target, pc + 1]
    case JumpIfFalse(_, target) => [target, pc + 1]
    case Suspend(_, _, resume, _) => [resume]
    case Await(_, _, resume) => [resume]
    case Return(_) => []
    case Throw(_) => []
    case Halt => []
    case _ => [pc + 1]
  }

  /** One operand check of the structural verifier. */
  datatype Check =
    | InRegisters(register: Register)
    | InConstants(constant: ConstantId)
    | IsString(constant: ConstantId)
    | InFunctions(callee: FunctionId)
    | InCode(target: nat)
    | Distinct(first: Register, second: Register)

  /** The operand checks of each instruction, in the order they are made. */
  function OperandChecks(i: Instruction): seq<Check> {
    if InGroup0(i) then OperandChecks0(i)
    else if InGroup10(i) then OperandChecks10(i)
    else if InGroup20(i) then OperandChecks20(i)
    else if InGroup30(i) then OperandChecks30(i)
    else if InGroup40(i) then OperandChecks40(i)
    else OperandChecks50(i)
  }

  function OperandChecks0(i: Instruction): seq<Check>
    requires InGroup0(i)
  {
    match i
    case LoadConst(dst, constant) => [InRegisters(dst), InConstants(constant)]
    case Move(dst, src) => [InRegisters(dst), InRegisters(src)]
    case Unary(dst, _, operand) => [InRegisters(dst), InRegisters(operand)]
    case Binary(dst, _, left, right) => [InRegisters(dst), InRegisters(left), InRegisters(right)]
    case CreateObject(dst) => [InRegisters(dst)]
    case CreateArray(dst) => [InRegisters(dst)]
    case CreateClosure(dst, closure, captures) => [InRegisters(dst), InRegisters(captures), InFunctions(closure)]
    case GetProperty(dst, base, key) => [InRegisters(dst), InRegisters(base), InRegisters(key)]
    case SetProperty(base, key, value) => [InRegisters(base), InRegisters(key), InRegisters(value)]
    case DeleteProperty(dst, base, key) => [InRegisters(dst), InRegisters(base), InRegisters(key)]
  }

  function OperandChecks10(i: Instruction): seq<Check>
    requires InGroup10(i)
  {
    match i
    case DefineAccessor(base, key, accessor, _) => [InRegisters(base), InRegisters(key), InRegisters(accessor)]
    case Call(dst, callee, thisValue, arguments) =>
      [InRegisters(dst), InRegisters(callee), InRegisters(thisValue), InRegisters(arguments)]
    case Construct(dst, callee, arguments) => [InRegisters(dst), InRegisters(callee), InRegisters(arguments)]
    case LoadGlobal(dst, name) => [InRegisters(dst), IsString(name)]
    case StoreGlobal(name, value) => [IsString(name), InRegisters(value)]
    case TypeOfGlobal(dst, name) => [InRegisters(dst), IsString(name)]
    case LoadThis(dst) => [InRegisters(dst)]
    case LoadArguments(dst) => [InRegisters(dst)]
    case LoadNewTarget(dst) => [InRegisters(dst)]
    case ArrayPush(sequence, value) => [InRegisters(sequence), InRegisters(value)]
  }

  function OperandChecks20(i: Instruction): seq<Check>
    requires InGroup20(i)
  {
    match i
    case ArrayExtend(sequence, iterable) => [InRegisters(sequence), InRegisters(iterable)]
    case ObjectSpread(target, source) => [InRegisters(target), InRegisters(source)]
    case SetPrototype(base, prototype) => [InRegisters(base), InRegisters(prototype)]
    case CreatePrivateName(dst, description) => [InRegisters(dst), IsString(description)]
    case CreateRegExp(dst, pattern, flags) => [InRegisters(dst), IsString(pattern), IsString(flags)]
    case GetIterator(dst, src, _) => [InRegisters(dst), InRegisters(src)]
    case IteratorNext(done, value, cursor) =>
      [InRegisters(done), InRegisters(value), InRegisters(cursor), Distinct(done, value)]
    case Jump(target) => [InCode(target)]
    case JumpIfTrue(condition, target) => [InRegisters(condition), InCode(target)]
    case JumpIfFalse(condition, target) => [InRegisters(condition), InCode(target)]
  }

  function OperandChecks30(i: Instruction): seq<Check>
    requires InGroup30(i)
  {
    match i
    case Return(value) => [InRegisters(value)]
    case Throw(value) => [InRegisters(value)]
    case Suspend(dst, src, resume, mode) => [InRegisters(dst), InRegisters(src), InRegisters(mode), InCode(resume)]
    case Import(dst, specifier) => [InRegisters(dst), IsString(specifier)]
    case Export(name, src) => [IsString(name), InRegisters(src)]
    case Halt => []
    case CreateCell(dst) => [InRegisters(dst)]
    case Await(dst, src, resume) => [InRegisters(dst), InRegisters(src), InCode(resume)]
    case IteratorStep(dst, cursor) => [InRegisters(dst), InRegisters(cursor)]
    case IteratorResult(done, value, result) =>
      [InRegisters(done), InRegisters(value), InRegisters(result), Distinct(done, value)]
  }

  function OperandChecks40(i: Instruction): seq<Check>
    requires InGroup40(i)
  {
    match i
    case IteratorClose(result, called, cursor, _) =>
      [InRegisters(result), InRegisters(called), InRegisters(cursor), Distinct(result, called)]
    case RequireCloseResult(result, called) => [InRegisters(result), InRegisters(called)]
    case ToObject(dst, src) => [InRegisters(dst), InRegisters(src)]
    case ImportDynamic(dst, specifier) => [InRegisters(dst), InRegisters(specifier)]
    case LoadImportMeta(dst) => [InRegisters(dst)]
    case DisposeCapture(disposer, disposal, src, _) =>
      [InRegisters(disposer), InRegisters(disposal), InRegisters(src), Distinct(disposer, disposal)]
    case SuppressError(dst, error, suppressed) => [InRegisters(dst), InRegisters(error), InRegisters(suppressed)]
    case ConstructWithNewTarget(dst, callee, newTarget, arguments) =>
      [InRegisters(dst), InRegisters(callee), InRegisters(newTarget), InRegisters(arguments)]
    case DefineDataProperty(base, key, value) => [InRegisters(base), InRegisters(key), InRegisters(value)]
    case LoadOwnDescriptorSlot(dst, base, key, _) => [InRegisters(dst), InRegisters(base), InRegisters(key)]
  }

  function OperandChecks50(i: Instruction): seq<Check>
    requires InGroup50(i)
  {
    match i
    case DefineOwnDescriptorSlot(base, key, src, _) => [InRegisters(base), InRegisters(key), InRegisters(src)]
    case WithHasBinding(dst, base, key) => [InRegisters(dst), InRegisters(base), InRegisters(key)]
    case GetSuper(dst, home, receiver, key) =>
      [InRegisters(dst), InRegisters(home), InRegisters(receiver), InRegisters(key)]
    case SetSuper(home, receiver, key, value) =>
      [InRegisters(home), InRegisters(receiver), InRegisters(key), InRegisters(value)]
    case ImportAttributes(dst, specifier, attributes) =>
      [InRegisters(dst), IsString(specifier), InRegisters(attributes)]
    case ImportDynamicAttributes(dst, specifier, attributes) =>
      [InRegisters(dst), InRegisters(specifier), InRegisters(attributes)]
    case CopyDataProperties(target, source, excluded) =>
      [InRegisters(target), InRegisters(source), InRegisters(excluded), Distinct(target, source),
       Distinct(target, excluded)]
    case GetTemplateObject(dst, cooked, raw) => [InRegisters(dst), InRegisters(cooked), InRegisters(raw)]
  }

  // ---- wire layout

  /** The operator families that travel as one tag byte. */
  datatype Family = UnaryFamily | BinaryFamily | IteratorFamily | CloseFamily | DisposeFamily | AccessorFamily
                  | SlotFamily

  function FamilySize(f: Family): byte {
    match f
    case UnaryFamily => 6
    case BinaryFamily => 22
    case IteratorFamily => 3
    case CloseFamily => 2
    case DisposeFamily => 2
    case AccessorFamily => 2
    case SlotFamily => 3
  }

  function UnaryOpTag(x: UnaryOp): byte {
    match x
    case Void => 0
    case TypeOf => 1
    case Plus => 2
    case Negate => 3
    case BitwiseNot => 4
    case LogicalNot => 5
  }

  function UnaryOpOf(tag: byte): UnaryOp
    requires tag < 6
  {
    match tag
    case 0 => Void
    case 1 => TypeOf
    case 2 => Plus
    case 3 => Negate
    case 4 => BitwiseNot
    case _ => LogicalNot
  }

  function BinaryOpTag(x: BinaryOp): byte {
    match x
    case Add => 0
    case Subtract => 1
    case Multiply => 2
    case Divide => 3
    case Remainder => 4
    case Exponent => 5
    case BitAnd => 6
    case BitOr => 7
    case BitXor => 8
    case ShiftLeft => 9
    case ShiftRight => 10
    case UnsignedShiftRight => 11
    case Equal => 12
    case NotEqual => 13
    case StrictEqual => 14
    case StrictNotEqual => 15
    case LessThan => 16
    case LessThanOrEqual => 17
    case GreaterThan => 18
    case GreaterThanOrEqual => 19
    case InstanceOf => 20
    case In => 21
  }

  function BinaryOpOf(tag: byte): BinaryOp
    requires tag < 22
  {
    match tag
    case 0 => Add
    case 1 => Subtract
    case 2 => Multiply
    case 3 => Divide
    case 4 => Remainder
    case 5 => Exponent
    case 6 => BitAnd
    case 7 => BitOr
    case 8 => BitXor
    case 9 => ShiftLeft
    case 10 => ShiftRight
    case 11 => UnsignedShiftRight
    case 12 => Equal
    case 13 => NotEqual
    case 14 => StrictEqual
    case 15 => StrictNotEqual
    case 16 => LessThan
    case 17 => LessThanOrEqual
    case 18 => GreaterThan
    case 19 => GreaterThanOrEqual
    case 20 => InstanceOf
    case _ => In
  }

  function IteratorKindTag(x: IteratorKind): byte {
    match x
    case SyncIterator => 0
    case AsyncIterator => 1
    case KeyIterator => 2
  }

  function IteratorKindOf(tag: byte): IteratorKind
    requires tag < 3
  {
    match tag
    case 0 => SyncIterator
    case 1 => AsyncIterator
    case _ => KeyIterator
  }

  function IteratorCloseModeTag(x: IteratorCloseMode): byte {
    match x
    case Propagate => 0
    case PreserveAbrupt => 1
  }

  function IteratorCloseModeOf(tag: byte): IteratorCloseMode
    requires tag < 2
  {
    match tag
    case 0 => Propagate
    case _ => PreserveAbrupt
  }

  function DisposeHintTag(x: DisposeHint): byte {
    match x
    case SyncDispose => 0
    case AsyncDispose => 1
  }

  function DisposeHintOf(tag: byte): DisposeHint
    requires tag < 2
  {
    match tag
    case 0 => SyncDispose
    case _ => AsyncDispose
  }

  function AccessorKindTag(x: AccessorKind): byte {
    match x
    case Getter => 0
    case Setter => 1
  }

  function AccessorKindOf(tag: byte): AccessorKind
    requires tag < 2
  {
    match tag
    case 0 => Getter
    case _ => Setter
  }

  function DescriptorSlotTag(x: DescriptorSlot): byte {
    match x
    case ValueSlot => 0
    case GetterSlot => 1
    case SetterSlot => 2
  }

  function DescriptorSlotOf(tag: byte): DescriptorSlot
    requires tag < 3
  {
    match tag
    case 0 => ValueSlot
    case 1 => GetterSlot
    case _ => SetterSlot
  }

  /** The integer operands of an instruction, in wire order. */
  datatype Words =
    | W0
    | W1(a: U32)
    | W2(a: U32, b: U32)
    | W3(a: U32, b: U32, c: U32)
    | W4(a: U32, b: U32, c: U32, d: U32)

  function Arity(ws: Words): nat {
    match ws
    case W0 => 0
    case W1(_) => 1
    case W2(_, _) => 2
    case W3(_, _, _) => 3
    case W4(_, _, _, _) => 4
  }

  function ToSeq(ws: Words): (s: seq<U32>)
    ensures |s| == Arity(ws)
  {
    match ws
    case W0 => []
    case W1(a) => [a]
    case W2(a, b) => [a, b]
    case W3(a, b, c) => [a, b, c]
    case W4(a, b, c, d) => [a, b, c, d]
  }

  function OfSeq(s: seq<U32>): (ws: Words)
    requires |s| <= 4
    ensures ToSeq(ws) == s && Arity(ws) == |s|
  {
    if |s| == 0 then W0
    else if |s| == 1 then W1(s[0])
    else if |s| == 2 then W2(s[0], s[1])
    else if |s| == 3 then W3(s[0], s[1], s[2])
    else W4(s[0], s[1], s[2], s[3])
  }

  /** An instruction as the encoder pushes it: tag, integers, an operator byte if any, more integers. */
  datatype Parts = Parts(op: byte, leading: Words, operator: Option<byte>, trailing: Words)

  const OPCODE_COUNT: byte := 58

  /** `before` integers, then an operator byte if there is a family, then `after` integers. */
  datatype Layout = Layout(before: nat, family: Option<Family>, after: nat)

  /** What the reader expects behind a tag. The encoder does not consult this table. */
  function LayoutOf(op: byte): Layout
    requires op < OPCODE_COUNT
  {
    if op == 2 then Layout(1, Some(UnaryFamily), 1)
    else if op == 25 then Layout(2, Some(IteratorFamily), 0)
    else if op == 3 then Layout(1, Some(BinaryFamily), 2)
    else if op == 10 then Layout(3, Some(AccessorFamily), 0)
    else if op == 40 then Layout(3, Some(CloseFamily), 0)
    else if op == 45 then Layout(3, Some(DisposeFamily), 0)
    else if 49 <= op <= 50 then Layout(3, Some(SlotFamily), 0)
    else if op == 35 then Layout(0, None, 0)
    else if 4 <= op <= 5 || 16 <= op <= 18 || op == 27 || 30 <= op <= 31 || op == 36 || op == 44 then
      Layout(1, None, 0)
    else if 6 <= op <= 9 || op == 12 || op == 24 || op == 26 || op == 37 || op == 39 || op == 46 || op == 48
      || op == 51 || 54 <= op <= 57 then Layout(3, None, 0)
    else if op == 11 || op == 32 || op == 47 || 52 <= op <= 53 then Layout(4, None, 0)
    else Layout(2, None, 0)
  }

  /** An operator byte is there exactly when the layout has a family, and belongs to it. */
  predicate FitsFamily(operator: Option<byte>, family: Option<Family>) {
    match family
    case None => operator.None?
    case Some(f) => operator.Some? && operator.value < FamilySize(f)
  }

  /** Whether integers and an operator byte are operands that the tag takes. */
  predicate FitsLayout(p: Parts) {
    && p.op < OPCODE_COUNT
    && var layout := LayoutOf(p.op);
    && Arity(p.leading) == layout.before
    && Arity(p.trailing) == layout.after
    && FitsFamily(p.operator, layout.family)
  }

  function Assemble0(p: Parts): Instruction
    requires 0 <= p.op < 10 && FitsLayout(p)
  {
    match p.op
    case 0 => LoadConst(p.leading.a, p.leading.b)
    case 1 => Move(p.leading.a, p.leading.b)
    case 2 => Unary(p.leading.a, UnaryOpOf(p.operator.value), p.trailing.a)
    case 3 => Binary(p.leading.a, BinaryOpOf(p.operator.value), p.trailing.a, p.trailing.b)
    case 4 => CreateObject(p.leading.a)
    case 5 => CreateArray(p.leading.a)
    case 6 => CreateClosure(p.leading.a, p.leading.b, p.leading.c)
    case 7 => GetProperty(p.leading.a, p.leading.b, p.leading.c)
    case 8 => SetProperty(p.leading.a, p.leading.b, p.leading.c)
    case _ => DeleteProperty(p.leading.a, p.leading.b, p.leading.c)
  }

  function Assemble10(p: Parts): Instruction
    requires 10 <= p.op < 20 && FitsLayout(p)
  {
    match p.op
    case 10 => DefineAccessor(p.leading.a, p.leading.b, p.leading.c, AccessorKindOf(p.operator.value))
    case 11 => Call(p.leading.a, p.leading.b, p.leading.c, p.leading.d)
    case 12 => Construct(p.leading.a, p.leading.b, p.leading.c)
    case 13 => LoadGlobal(p.leading.a, p.leading.b)
    case 14 => StoreGlobal(p.leading.a, p.leading.b)
    case 15 => TypeOfGlobal(p.leading.a, p.leading.b)
    case 16 => LoadThis(p.leading.a)
    case 17 => LoadArguments(p.leading.a)
    case 18 => LoadNewTarget(p.leading.a)
    case _ => ArrayPush(p.leading.a, p.leading.b)
  }

  function Assemble20(p: Parts): Instruction
    requires 20 <= p.op < 30 && FitsLayout(p)
  {
    match p.op
    case 20 => ArrayExtend(p.leading.a, p.leading.b)
    case 21 => ObjectSpread(p.leading.a, p.leading.b)
    case 22 => SetPrototype(p.leading.a, p.leading.b)
    case 23 => CreatePrivateName(p.leading.a, p.leading.b)
    case 24 => CreateRegExp(p.leading.a, p.leading.b, p.leading.c)
    case 25 => GetIterator(p.leading.a, p.leading.b, IteratorKindOf(p.operator.value))
    case 26 => IteratorNext(p.leading.a, p.leading.b, p.leading.c)
    case 27 => Jump(p.leading.a)
    case 28 => JumpIfTrue(p.leading.a, p.leading.b)
    case _ => JumpIfFalse(p.leading.a, p.leading.b)
  }

  function Assemble30(p: Parts): Instruction
    requires 30 <= p.op < 40 && FitsLayout(p)
  {
    match p.op
    case 30 => Return(p.leading.a)
    case 31 => Throw(p.leading.a)
    case 32 => Suspend(p.leading.a, p.leading.b, p.leading.c, p.leading.d)
    case 33 => Import(p.leading.a, p.leading.b)
    case 34 => Export(p.leading.a, p.leading.b)
    case 35 => Halt
    case 36 => CreateCell(p.leading.a)
    case 37 => Await(p.leading.a, p.leading.b, p.leading.c)
    case 38 => IteratorStep(p.leading.a, p.leading.b)
    case _ => IteratorResult(p.leading.a, p.leading.b, p.leading.c)
  }

  function Assemble40(p: Parts): Instruction
    requires 40 <= p.op < 50 && FitsLayout(p)
  {
    match p.op
    case 40 => IteratorClose(p.leading.a, p.leading.b, p.leading.c, IteratorCloseModeOf(p.operator.value))
    case 41 => RequireCloseResult(p.leading.a, p.leading.b)
    case 42 => ToObject(p.leading.a, p.leading.b)
    case 43 => ImportDynamic(p.leading.a, p.leading.b)
    case 44 => LoadImportMeta(p.leading.a)
    case 45 => DisposeCapture(p.leading.a, p.leading.b, p.leading.c, DisposeHintOf(p.operator.value))
    case 46 => SuppressError(p.leading.a, p.leading.b, p.leading.c)
    case 47 => ConstructWithNewTarget(p.leading.a, p.leading.b, p.leading.c, p.leading.d)
    case 48 => DefineDataProperty(p.leading.a, p.leading.b, p.leading.c)
    case _ => LoadOwnDescriptorSlot(p.leading.a, p.leading.b, p.leading.c, DescriptorSlotOf(p.operator.value))
  }

  function Assemble50(p: Parts): Instruction
    requires 50 <= p.op < 58 && FitsLayout(p)
  {
    match p.op
    case 50 => DefineOwnDescriptorSlot(p.leading.a, p.leading.b, p.leading.c, DescriptorSlotOf(p.operator.value))
    case 51 => WithHasBinding(p.leading.a, p.leading.b, p.leading.c)
    case 52 => GetSuper(p.leading.a, p.leading.b, p.leading.c, p.leading.d)
    case 53 => SetSuper(p.leading.a, p.leading.b, p.leading.c, p.leading.d)
    case 54 => ImportAttributes(p.leading.a, p.leading.b, p.leading.c)
    case 55 => ImportDynamicAttributes(p.leading.a, p.leading.b, p.leading.c)
    case 56 => CopyDataProperties(p.leading.a, p.leading.b, p.leading.c)
    case _ => GetTemplateObject(p.leading.a, p.leading.b, p.leading.c)
  }

  /** The instruction with these wire parts. */
  function Assemble(p: Parts): Instruction
    requires FitsLayout(p)
  {
    if p.op < 10 then Assemble0(p)
    else if p.op < 20 then Assemble10(p)
    else if p.op < 30 then Assemble20(p)
    else if p.op < 40 then Assemble30(p)
    else if p.op < 50 then Assemble40(p)
    else Assemble50(p)
  }

  predicate InGroup0(i: Instruction) {
    i.LoadConst? || i.Move? || i.Unary? || i.Binary?
    || i.CreateObject? || i.CreateArray? || i.CreateClosure? || i.GetProperty?
    || i.SetProperty? || i.DeleteProperty?
  }

  function Disassemble0(i: Instruction): Parts
    requires InGroup0(i)
  {
    match i
    case LoadConst(dst, constant) => Parts(0, W2(dst, constant), None, W0)
    case Move(dst, src) => Parts(1, W2(dst, src), None, W0)
    case Unary(dst, unary, operand) => Parts(2, W1(dst), Some(UnaryOpTag(unary)), W1(operand))
    case Binary(dst, binary, left, right) => Parts(3, W1(dst), Some(BinaryOpTag(binary)), W2(left, right))
    case CreateObject(dst) => Parts(4, W1(dst), None, W0)
    case CreateArray(dst) => Parts(5, W1(dst), None, W0)
    case CreateClosure(dst, closure, captures) => Parts(6, W3(dst, closure, captures), None, W0)
    case GetProperty(dst, base, key) => Parts(7, W3(dst, base, key), None, W0)
    case SetProperty(base, key, value) => Parts(8, W3(base, key, value), None, W0)
    case DeleteProperty(dst, base, key) => Parts(9, W3(dst, base, key), None, W0)
  }

  predicate InGroup10(i: Instruction) {
    i.DefineAccessor? || i.Call? || i.Construct? || i.LoadGlobal?
    || i.StoreGlobal? || i.TypeOfGlobal? || i.LoadThis? || i.LoadArguments?
    || i.LoadNewTarget? || i.ArrayPush?
  }

  function Disassemble10(i: Instruction): Parts
    requires InGroup10(i)
  {
    match i
    case DefineAccessor(base, key, accessor, half) =>
      Parts(10, W3(base, key, accessor), Some(AccessorKindTag(half)), W0)
    case Call(dst, callee, thisValue, arguments) => Parts(11, W4(dst, callee, thisValue, arguments), None, W0)
    case Construct(dst, callee, arguments) => Parts(12, W3(dst, callee, arguments), None, W0)
    case LoadGlobal(dst, name) => Parts(13, W2(dst, name), None, W0)
    case StoreGlobal(name, value) => Parts(14, W2(name, value), None, W0)
    case TypeOfGlobal(dst, name) => Parts(15, W2(dst, name), None, W0)
    case LoadThis(dst) => Parts(16, W1(dst), None, W0)
    case LoadArguments(dst) => Parts(17, W1(dst), None, W0)
    case LoadNewTarget(dst) => Parts(18, W1(dst), None, W0)
    case ArrayPush(sequence, value) => Parts(19, W2(sequence, value), None, W0)
  }

  predicate InGroup20(i: Instruction) {
    i.ArrayExtend? || i.ObjectSpread? || i.SetPrototype? || i.CreatePrivateName?
    || i.CreateRegExp? || i.GetIterator? || i.IteratorNext? || i.Jump?
    || i.JumpIfTrue? || i.JumpIfFalse?
  }

  function Disassemble20(i: Instruction): Parts
    requires InGroup20(i)
  {
    match i
    case ArrayExtend(sequence, iterable) => Parts(20, W2(sequence, iterable), None, W0)
    case ObjectSpread(target, source) => Parts(21, W2(target, source), None, W0)
    case SetPrototype(base, prototype) => Parts(22, W2(base, prototype), None, W0)
    case CreatePrivateName(dst, description) => Parts(23, W2(dst, description), None, W0)
    case CreateRegExp(dst, pattern, flags) => Parts(24, W3(dst, pattern, flags), None, W0)
    case GetIterator(dst, src, protocol) => Parts(25, W2(dst, src), Some(IteratorKindTag(protocol)), W0)
    case IteratorNext(done, value, cursor) => Parts(26, W3(done, value, cursor), None, W0)
    case Jump(target) => Parts(27, W1(target), None, W0)
    case JumpIfTrue(condition, target) => Parts(28, W2(condition, target), None, W0)
    case JumpIfFalse(condition, target) => Parts(29, W2(condition, target), None, W0)
  }

  predicate InGroup30(i: Instruction) {
    i.Return? || i.Throw? || i.Suspend? || i.Import?
    || i.Export? || i.Halt? || i.CreateCell? || i.Await?
    || i.IteratorStep? || i.IteratorResult?
  }

  function Disassemble30(i: Instruction): Parts
    requires InGroup30(i)
  {
    match i
    case Return(value) => Parts(30, W1(value), None, W0)
    case Throw(value) => Parts(31, W1(value), None, W0)
    case Suspend(dst, src, resume, mode) => Parts(32, W4(dst, src, resume, mode), None, W0)
    case Import(dst, specifier) => Parts(33, W2(dst, specifier), None, W0)
    case Export(name, src) => Parts(34, W2(name, src), None, W0)
    case Halt => Parts(35, W0, None, W0)
    case CreateCell(dst) => Parts(36, W1(dst), None, W0)
    case Await(dst, src, resume) => Parts(37, W3(dst, src, resume), None, W0)
    case IteratorStep(dst, cursor) => Parts(38, W2(dst, cursor), None, W0)
    case IteratorResult(done, value, result) => Parts(39, W3(done, value, result), None, W0)
  }

  predicate InGroup40(i: Instruction) {
    i.IteratorClose? || i.RequireCloseResult? || i.ToObject? || i.ImportDynamic?
    || i.LoadImportMeta? || i.DisposeCapture? || i.SuppressError? || i.ConstructWithNewTarget?
    || i.DefineDataProperty? || i.LoadOwnDescriptorSlot?
  }

  function Disassemble40(i: Instruction): Parts
    requires InGroup40(i)
  {
    match i
    case IteratorClose(result, called, cursor, policy) =>
      Parts(40, W3(result, called, cursor), Some(IteratorCloseModeTag(policy)), W0)
    case RequireCloseResult(result, called) => Parts(41, W2(result, called), None, W0)
    case ToObject(dst, src) => Parts(42, W2(dst, src), None, W0)
    case ImportDynamic(dst, specifier) => Parts(43, W2(dst, specifier), None, W0)
    case LoadImportMeta(dst) => Parts(44, W1(dst), None, W0)
    case DisposeCapture(disposer, disposal, src, hint) =>
      Parts(45, W3(disposer, disposal, src), Some(DisposeHintTag(hint)), W0)
    case SuppressError(dst, error, suppressed) => Parts(46, W3(dst, error, suppressed), None, W0)
    case ConstructWithNewTarget(dst, callee, newTarget, arguments) =>
      Parts(47, W4(dst, callee, newTarget, arguments), None, W0)
    case DefineDataProperty(base, key, value) => Parts(48, W3(base, key, value), None, W0)
    case LoadOwnDescriptorSlot(dst, base, key, slot) => Parts(49, W3(dst, base, key), Some(DescriptorSlotTag(slot)), W0)
  }

  predicate InGroup50(i: Instruction) {
    i.DefineOwnDescriptorSlot? || i.WithHasBinding? || i.GetSuper? || i.SetSuper?
    || i.ImportAttributes? || i.ImportDynamicAttributes? || i.CopyDataProperties? || i.GetTemplateObject?
  }

  function Disassemble50(i: Instruction): Parts
    requires InGroup50(i)
  {
    match i
    case DefineOwnDescriptorSlot(base, key, src, slot) =>
      Parts(50, W3(base, key, src), Some(DescriptorSlotTag(slot)), W0)
    case WithHasBinding(dst, base, key) => Parts(51, W3(dst, base, key), None, W0)
    case GetSuper(dst, home, receiver, key) => Parts(52, W4(dst, home, receiver, key), None, W0)
    case SetSuper(home, receiver, key, value) => Parts(53, W4(home, receiver, key, value), None, W0)
    case ImportAttributes(dst, specifier, attributes) => Parts(54, W3(dst, specifier, attributes), None, W0)
    case ImportDynamicAttributes(dst, specifier, attributes) => Parts(55, W3(dst, specifier, attributes), None, W0)
    case CopyDataProperties(target, source, excluded) => Parts(56, W3(target, source, excluded), None, W0)
    case GetTemplateObject(dst, cooked, raw) => Parts(57, W3(dst, cooked, raw), None, W0)
  }

  /** The wire parts of an instruction. */
  function Disassemble(i: Instruction): Parts
  {
    if InGroup0(i) then Disassemble0(i)
    else if InGroup10(i) then Disassemble10(i)
    else if InGroup20(i) then Disassemble20(i)
    else if InGroup30(i) then Disassemble30(i)
    else if InGroup40(i) then Disassemble40(i)
    else Disassemble50(i)
  }

  lemma AssembleInverts0(i: Instruction)
    requires InGroup0(i)
    ensures 0 <= Disassemble0(i).op < 10 && FitsLayout(Disassemble0(i))
    ensures Assemble0(Disassemble0(i)) == i
  {
    match i
    case LoadConst(_, _) =>
    case Move(_, _) =>
    case Unary(_, _, _) =>
    case Binary(_, _, _, _) =>
    case CreateObject(_) =>
    case CreateArray(_) =>
    case CreateClosure(_, _, _) =>
    case GetProperty(_, _, _) =>
    case SetProperty(_, _, _) =>
    case DeleteProperty(_, _, _) =>
  }

  lemma DisassembleInverts0(p: Parts)
    requires 0 <= p.op < 10 && FitsLayout(p)
    ensures InGroup0(Assemble0(p)) && Disassemble0(Assemble0(p)) == p
  {
    match p.op
    case 0 =>
    case 1 =>
    case 2 =>
    case 3 =>
    case 4 =>
    case 5 =>
    case 6 =>
    case 7 =>
    case 8 =>
    case 9 =>
  }

  lemma AssembleInverts10(i: Instruction)
    requires InGroup10(i)
    ensures 10 <= Disassemble10(i).op < 20 && FitsLayout(Disassemble10(i))
    ensures Assemble10(Disassemble10(i)) == i
  {
    match i
    case DefineAccessor(_, _, _, _) =>
    case Call(_, _, _, _) =>
    case Construct(_, _, _) =>
    case LoadGlobal(_, _) =>
    case StoreGlobal(_, _) =>
    case TypeOfGlobal(_, _) =>
    case LoadThis(_) =>
    case LoadArguments(_) =>
    case LoadNewTarget(_) =>
    case ArrayPush(_, _) =>
  }

  lemma DisassembleInverts10(p: Parts)
    requires 10 <= p.op < 20 && FitsLayout(p)
    ensures InGroup10(Assemble10(p)) && Disassemble10(Assemble10(p)) == p
  {
    match p.op
    case 10 =>
    case 11 =>
    case 12 =>
    case 13 =>
    case 14 =>
    case 15 =>
    case 16 =>
    case 17 =>
    case 18 =>
    case 19 =>
  }

  lemma AssembleInverts20(i: Instruction)
    requires InGroup20(i)
    ensures 20 <= Disassemble20(i).op < 30 && FitsLayout(Disassemble20(i))
    ensures Assemble20(Disassemble20(i)) == i
  {
    match i
    case ArrayExtend(_, _) =>
    case ObjectSpread(_, _) =>
    case SetPrototype(_, _) =>
    case CreatePrivateName(_, _) =>
    case CreateRegExp(_, _, _) =>
    case GetIterator(_, _, _) =>
    case IteratorNext(_, _, _) =>
    case Jump(_) =>
    case JumpIfTrue(_, _) =>
    case JumpIfFalse(_, _) =>
  }

  lemma DisassembleInverts20(p: Parts)
    requires 20 <= p.op < 30 && FitsLayout(p)
    ensures InGroup20(Assemble20(p)) && Disassemble20(Assemble20(p)) == p
  {
    match p.op
    case 20 =>
    case 21 =>
    case 22 =>
    case 23 =>
    case 24 =>
    case 25 =>
    case 26 =>
    case 27 =>
    case 28 =>
    case 29 =>
  }

  lemma AssembleInverts30(i: Instruction)
    requires InGroup30(i)
    ensures 30 <= Disassemble30(i).op < 40 && FitsLayout(Disassemble30(i))
    ensures Assemble30(Disassemble30(i)) == i
  {
    match i
    case Return(_) =>
    case Throw(_) =>
    case Suspend(_, _, _, _) =>
    case Import(_, _) =>
    case Export(_, _) =>
    case Halt =>
    case CreateCell(_) =>
    case Await(_, _, _) =>
    case IteratorStep(_, _) =>
    case IteratorResult(_, _, _) =>
  }

  lemma DisassembleInverts30(p: Parts)
    requires 30 <= p.op < 40 && FitsLayout(p)
    ensures InGroup30(Assemble30(p)) && Disassemble30(Assemble30(p)) == p
  {
    match p.op
    case 30 =>
    case 31 =>
    case 32 =>
    case 33 =>
    case 34 =>
    case 35 =>
    case 36 =>
    case 37 =>
    case 38 =>
    case 39 =>
  }

  lemma AssembleInverts40(i: Instruction)
    requires InGroup40(i)
    ensures 40 <= Disassemble40(i).op < 50 && FitsLayout(Disassemble40(i))
    ensures Assemble40(Disassemble40(i)) == i
  {
    match i
    case IteratorClose(_, _, _, _) =>
    case RequireCloseResult(_, _) =>
    case ToObject(_, _) =>
    case ImportDynamic(_, _) =>
    case LoadImportMeta(_) =>
    case DisposeCapture(_, _, _, _) =>
    case SuppressError(_, _, _) =>
    case ConstructWithNewTarget(_, _, _, _) =>
    case DefineDataProperty(_, _, _) =>
    case LoadOwnDescriptorSlot(_, _, _, _) =>
  }

  lemma DisassembleInverts40(p: Parts)
    requires 40 <= p.op < 50 && FitsLayout(p)
    ensures InGroup40(Assemble40(p)) && Disassemble40(Assemble40(p)) == p
  {
    match p.op
    case 40 =>
    case 41 =>
    case 42 =>
    case 43 =>
    case 44 =>
    case 45 =>
    case 46 =>
    case 47 =>
    case 48 =>
    case 49 =>
  }

  lemma AssembleInverts50(i: Instruction)
    requires InGroup50(i)
    ensures 50 <= Disassemble50(i).op < 58 && FitsLayout(Disassemble50(i))
    ensures Assemble50(Disassemble50(i)) == i
  {
    match i
    case DefineOwnDescriptorSlot(_, _, _, _) =>
    case WithHasBinding(_, _, _) =>
    case GetSuper(_, _, _, _) =>
    case SetSuper(_, _, _, _) =>
    case ImportAttributes(_, _, _) =>
    case ImportDynamicAttributes(_, _, _) =>
    case CopyDataProperties(_, _, _) =>
    case GetTemplateObject(_, _, _) =>
  }

  lemma DisassembleInverts50(p: Parts)
    requires 50 <= p.op < 58 && FitsLayout(p)
    ensures InGroup50(Assemble50(p)) && Disassemble50(Assemble50(p)) == p
  {
    match p.op
    case 50 =>
    case 51 =>
    case 52 =>
    case 53 =>
    case 54 =>
    case 55 =>
    case 56 =>
    case 57 =>
  }

  lemma Regroup0(i: Instruction)
    requires InGroup0(i)
    ensures Disassemble(i) == Disassemble0(i)
  {}

  lemma Regroup10(i: Instruction)
    requires InGroup10(i)
    ensures Disassemble(i) == Disassemble10(i)
  {}

  lemma Regroup20(i: Instruction)
    requires InGroup20(i)
    ensures Disassemble(i) == Disassemble20(i)
  {}

  lemma Regroup30(i: Instruction)
    requires InGroup30(i)
    ensures Disassemble(i) == Disassemble30(i)
  {}

  lemma Regroup40(i: Instruction)
    requires InGroup40(i)
    ensures Disassemble(i) == Disassemble40(i)
  {}

  lemma Regroup50(i: Instruction)
    requires InGroup50(i)
    ensures Disassemble(i) == Disassemble50(i)
  {}

  /** Every instruction's wire parts fit its layout and assemble back to it. */
  lemma AssembleInvertsDisassemble(i: Instruction)
    ensures FitsLayout(Disassemble(i)) && Assemble(Disassemble(i)) == i
  {
    if InGroup0(i) {
      AssembleInverts0(i);
    } else if InGroup10(i) {
      AssembleInverts10(i);
    } else if InGroup20(i) {
      AssembleInverts20(i);
    } else if InGroup30(i) {
      AssembleInverts30(i);
    } else if InGroup40(i) {
      AssembleInverts40(i);
    } else {
      AssembleInverts50(i);
    }
  }

  /** Every fitting tag and operands yield an instruction with exactly those wire parts. */
  lemma DisassembleInvertsAssemble(p: Parts)
    requires FitsLayout(p)
    ensures Disassemble(Assemble(p)) == p
  {
    if p.op < 10 {
      DisassembleInverts0(p);
      Regroup0(Assemble0(p));
    } else if p.op < 20 {
      DisassembleInverts10(p);
      Regroup10(Assemble10(p));
    } else if p.op < 30 {
      DisassembleInverts20(p);
      Regroup20(Assemble20(p));
    } else if p.op < 40 {
      DisassembleInverts30(p);
      Regroup30(Assemble30(p));
    } else if p.op < 50 {
      DisassembleInverts40(p);
      Regroup40(Assemble40(p));
    } else if p.op < 58 {
      DisassembleInverts50(p);
      Regroup50(Assemble50(p));
    }
  }
}
