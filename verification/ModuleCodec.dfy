/** Instructions, handlers and functions on the wire; their parsers exactly invert their encoders. */
module ModuleCodec {
  import opened Base
  import opened Instructions
  import opened Bytecode
  import opened Wire
  import opened Codec

  // ---- instructions

  /** The operands in wire order: leading integers, operator byte if any, trailing integers. */
  datatype Operands = Operands(leading: seq<U32>, operator: Option<byte>, trailing: seq<U32>)

  predicate FitsOperands(x: Operands, layout: Layout) {
    |x.leading| == layout.before && |x.trailing| == layout.after && FitsFamily(x.operator, layout.family)
  }

  function OperatorBytes(operator: Option<byte>): seq<byte> {
    if operator.Some? then [operator.value] else []
  }

  function EncodeOperands(x: Operands): seq<byte> {
    EncodeIntegers(x.leading) + (OperatorBytes(x.operator) + EncodeIntegers(x.trailing))
  }

  function Split(p: Parts): Operands {
    Operands(ToSeq(p.leading), p.operator, ToSeq(p.trailing))
  }

  function Join(op: byte, x: Operands): (p: Parts)
    requires op < OPCODE_COUNT && FitsOperands(x, LayoutOf(op))
    ensures FitsLayout(p) && p.op == op && Split(p) == x
  {
    LayoutIsSmall(op);
    Parts(op, OfSeq(x.leading), x.operator, OfSeq(x.trailing))
  }

  lemma LayoutIsSmall(op: byte)
    requires op < OPCODE_COUNT
    ensures LayoutOf(op).before <= 4 && LayoutOf(op).after <= 4
  {}

  lemma WordsRoundTrip(ws: Words)
    ensures OfSeq(ToSeq(ws)) == ws
  {}

  lemma JoinInvertsSplit(p: Parts)
    requires FitsLayout(p)
    ensures FitsOperands(Split(p), LayoutOf(p.op)) && Join(p.op, Split(p)) == p
  {
    WordsRoundTrip(p.leading);
    WordsRoundTrip(p.trailing);
  }

  /** Tag byte, then operands, as the encoder pushes them. */
  function EncodeInstruction(i: Instruction): (e: seq<byte>)
    ensures |e| >= 1
  {
    var p := Disassemble(i);
    [p.op] + EncodeOperands(Split(p))
  }

  function ParseOperator(bytes: seq<byte>, at: nat, family: Option<Family>): Parsed<Option<byte>> {
    match family
    case None => Got(None, at)
    case Some(f) =>
      match ParseByte(bytes, at)
      case Bad(e) => Bad(e)
      case Got(tag, next) =>
        if tag < FamilySize(f) then Got(Some(tag), next) else Bad(DecodeError(at, InvalidOperator(f, tag)))
  }

  function ParseOperands(bytes: seq<byte>, at: nat, layout: Layout): Parsed<Operands> {
    match ParseIntegers(bytes, at, Free(layout.before))
    case Bad(e) => Bad(e)
    case Got(leading, a) =>
      match ParseOperator(bytes, a, layout.family)
      case Bad(e) => Bad(e)
      case Got(operator, b) =>
        match ParseIntegers(bytes, b, Free(layout.after))
        case Bad(e) => Bad(e)
        case Got(trailing, next) => Got(Operands(leading, operator, trailing), next)
  }

  function ParseInstruction(bytes: seq<byte>, at: nat): Parsed<Instruction> {
    match ParseByte(bytes, at)
    case Bad(e) => Bad(e)
    case Got(op, middle) =>
      if op >= OPCODE_COUNT then Bad(DecodeError(at, InvalidOpcode(op)))
      else
        match ParseOperands(bytes, middle, LayoutOf(op))
        case Bad(e) => Bad(e)
        case Got(x, next) =>
          OperandsSound(bytes, middle, LayoutOf(op));
          Got(Assemble(Join(op, x)), next)
  }

  lemma OperatorExact(bytes: seq<byte>, at: nat, family: Option<Family>, operator: Option<byte>, next: nat)
    requires at <= |bytes|
    ensures ParseOperator(bytes, at, family) == Got(operator, next) <==>
            FitsFamily(operator, family) && Occurs(bytes, at, OperatorBytes(operator), next)
  {
    if operator.Some? { ByteExact(bytes, at, operator.value, next); }
  }

  lemma OperandsSound(bytes: seq<byte>, at: nat, layout: Layout)
    requires at <= |bytes| && ParseOperands(bytes, at, layout).Got?
    ensures var r := ParseOperands(bytes, at, layout);
      FitsOperands(r.value, layout) && Occurs(bytes, at, EncodeOperands(r.value), r.next)
  {
    hide ParseIntegers, EncodeIntegers, ParseOperator, Occurs;
    var r := ParseOperands(bytes, at, layout);
    var x := r.value;
    var operatorBytes := OperatorBytes(x.operator);
    var leading := ParseIntegers(bytes, at, Free(layout.before));
    IntegersSound(bytes, at, Free(layout.before));
    var operator := ParseOperator(bytes, leading.next, layout.family);
    OperatorExact(bytes, leading.next, layout.family, operator.value, operator.next);
    OccursBounds(bytes, leading.next, operatorBytes, operator.next);
    IntegersSound(bytes, operator.next, Free(layout.after));
    OccursBounds(bytes, at, EncodeIntegers(x.leading), leading.next);
    OccursConcat(bytes, leading.next, operatorBytes, EncodeIntegers(x.trailing), r.next);
    OccursConcat(bytes, at, EncodeIntegers(x.leading), operatorBytes + EncodeIntegers(x.trailing), r.next);
  }

  lemma OperandsComplete(bytes: seq<byte>, at: nat, layout: Layout, x: Operands, next: nat)
    requires FitsOperands(x, layout) && Occurs(bytes, at, EncodeOperands(x), next)
    ensures ParseOperands(bytes, at, layout) == Got(x, next)
  {
    hide ParseIntegers, EncodeIntegers, ParseOperator;
    var operatorBytes := OperatorBytes(x.operator);
    var a := at + |EncodeIntegers(x.leading)|;
    OccursConcat(bytes, at, EncodeIntegers(x.leading), operatorBytes + EncodeIntegers(x.trailing), next);
    OccursConcat(bytes, a, operatorBytes, EncodeIntegers(x.trailing), next);
    IntegersComplete(bytes, at, Free(layout.before), x.leading, a);
    OperatorExact(bytes, a, layout.family, x.operator, a + |operatorBytes|);
    IntegersComplete(bytes, a + |operatorBytes|, Free(layout.after), x.trailing, next);
  }

  lemma InstructionSound(bytes: seq<byte>, at: nat)
    requires ParseInstruction(bytes, at).Got?
    ensures var r := ParseInstruction(bytes, at); Occurs(bytes, at, EncodeInstruction(r.value), r.next)
  {
    var op := bytes[at];
    ByteExact(bytes, at, op, at + 1);
    OperandsSound(bytes, at + 1, LayoutOf(op));
    var x := ParseOperands(bytes, at + 1, LayoutOf(op));
    DisassembleInvertsAssemble(Join(op, x.value));
    OccursConcat(bytes, at, [op], EncodeOperands(x.value), x.next);
  }

  lemma InstructionComplete(bytes: seq<byte>, at: nat, i: Instruction, next: nat)
    requires Occurs(bytes, at, EncodeInstruction(i), next)
    ensures ParseInstruction(bytes, at) == Got(i, next)
  {
    AssembleInvertsDisassemble(i);
    var p := Disassemble(i);
    OccursConcat(bytes, at, [p.op], EncodeOperands(Split(p)), next);
    ByteExact(bytes, at, p.op, at + 1);
    JoinInvertsSplit(p);
    OperandsComplete(bytes, at + 1, LayoutOf(p.op), Split(p), next);
  }

  function EncodeCode(code: seq<Instruction>): (e: seq<byte>)
    ensures |e| >= |code|
  {
    if code == [] then [] else EncodeInstruction(code[0]) + EncodeCode(code[1..])
  }

  function ParseCode(bytes: seq<byte>, at: nat, n: nat): Parsed<seq<Instruction>>
    decreases n
  {
    if n == 0 then Got([], at)
    else
      match ParseInstruction(bytes, at)
      case Bad(e) => Bad(e)
      case Got(i, middle) =>
        match ParseCode(bytes, middle, n - 1)
        case Bad(e) => Bad(e)
        case Got(rest, next) => Got([i] + rest, next)
  }

  lemma {:induction false} CodeSound(bytes: seq<byte>, at: nat, n: nat)
    requires at <= |bytes| && ParseCode(bytes, at, n).Got?
    ensures var r := ParseCode(bytes, at, n); |r.value| == n && Occurs(bytes, at, EncodeCode(r.value), r.next)
    decreases n
  {
    hide ParseInstruction, EncodeInstruction;
    if n > 0 {
      var r, first := ParseCode(bytes, at, n), ParseInstruction(bytes, at);
      InstructionSound(bytes, at);
      CodeSound(bytes, first.next, n - 1);
      assert r.value[1..] == ParseCode(bytes, first.next, n - 1).value;
      OccursConcat(bytes, at, EncodeInstruction(first.value), EncodeCode(r.value[1..]), r.next);
    }
  }

  lemma {:induction false} CodeComplete(bytes: seq<byte>, at: nat, code: seq<Instruction>, next: nat)
    requires Occurs(bytes, at, EncodeCode(code), next)
    ensures ParseCode(bytes, at, |code|) == Got(code, next)
    decreases |code|
  {
    hide ParseInstruction, EncodeInstruction;
    if code != [] {
      var middle := at + |EncodeInstruction(code[0])|;
      OccursConcat(bytes, at, EncodeInstruction(code[0]), EncodeCode(code[1..]), next);
      InstructionComplete(bytes, at, code[0], middle);
      CodeComplete(bytes, middle, code[1..], next);
      assert code == [code[0]] + code[1..];
    }
  }

  // ---- handlers

  function HandlerIntegers(h: ExceptionHandler): seq<U32> {
    [h.start, h.end, h.handler, h.catchRegister]
  }

  function EncodeHandlers(hs: seq<ExceptionHandler>): (e: seq<byte>)
    ensures |e| >= |hs|
  {
    if hs == [] then []
    else
      assert EncodeIntegers(HandlerIntegers(hs[0])) == Leb(hs[0].start) + EncodeIntegers(HandlerIntegers(hs[0])[1..]);
      EncodeIntegers(HandlerIntegers(hs[0])) + EncodeHandlers(hs[1..])
  }

  function ParseHandlers(bytes: seq<byte>, at: nat, n: nat): Parsed<seq<ExceptionHandler>>
    requires at <= |bytes|
    decreases n
  {
    if n == 0 then Got([], at)
    else
      match ParseIntegers(bytes, at, Free(4))
      case Bad(e) => Bad(e)
      case Got(ns, middle) =>
        IntegersSound(bytes, at, Free(4));
        match ParseHandlers(bytes, middle, n - 1)
        case Bad(e) => Bad(e)
        case Got(rest, next) => Got([ExceptionHandler(ns[0], ns[1], ns[2], ns[3])] + rest, next)
  }

  lemma {:induction false} HandlersSound(bytes: seq<byte>, at: nat, n: nat)
    requires at <= |bytes| && ParseHandlers(bytes, at, n).Got?
    ensures var r := ParseHandlers(bytes, at, n); |r.value| == n && Occurs(bytes, at, EncodeHandlers(r.value), r.next)
    decreases n
  {
    hide ParseIntegers, EncodeIntegers;
    if n > 0 {
      var r, first := ParseHandlers(bytes, at, n), ParseIntegers(bytes, at, Free(4));
      IntegersSound(bytes, at, Free(4));
      HandlersSound(bytes, first.next, n - 1);
      assert r.value[1..] == ParseHandlers(bytes, first.next, n - 1).value;
      assert HandlerIntegers(r.value[0]) == first.value;
      OccursConcat(bytes, at, EncodeIntegers(first.value), EncodeHandlers(r.value[1..]), r.next);
    }
  }

  lemma {:induction false} HandlersComplete(bytes: seq<byte>, at: nat, hs: seq<ExceptionHandler>, next: nat)
    requires at <= |bytes| && Occurs(bytes, at, EncodeHandlers(hs), next)
    ensures ParseHandlers(bytes, at, |hs|) == Got(hs, next)
    decreases |hs|
  {
    hide ParseIntegers, EncodeIntegers, Occurs;
    OccursBounds(bytes, at, EncodeHandlers(hs), next);
    if hs != [] {
      var ns := HandlerIntegers(hs[0]);
      OccursConcat(bytes, at, EncodeIntegers(ns), EncodeHandlers(hs[1..]), next);
      IntegersComplete(bytes, at, Free(4), ns, at + |EncodeIntegers(ns)|);
      OccursBounds(bytes, at, EncodeIntegers(ns), at + |EncodeIntegers(ns)|);
      HandlersComplete(bytes, at + |EncodeIntegers(ns)|, hs[1..], next);
      assert hs == [hs[0]] + hs[1..];
    }
  }

  // ---- functions

  function FlagBits(f: FunctionFlags): byte {
    (if f.isAsync then 1 else 0) + (if f.isGenerator then 2 else 0) + (if f.isConstructable then 4 else 0)
  }

  function FlagsOf(bits: byte): (f: FunctionFlags)
    requires bits < 8
    ensures FlagBits(f) == bits
  {
    FunctionFlags(bits % 2 == 1, bits / 2 % 2 == 1, bits / 4 == 1)
  }

  /** One bit per flag: asynchronous, generator, constructable, from the lowest up. */
  lemma FlagBitsMean(f: FunctionFlags)
    ensures RegisterSets.Bit(FlagBits(f), 0) == f.isAsync
    ensures RegisterSets.Bit(FlagBits(f), 1) == f.isGenerator
    ensures RegisterSets.Bit(FlagBits(f), 2) == f.isConstructable
    ensures forall k: nat :: k > 2 ==> !RegisterSets.Bit(FlagBits(f), k)
  {
    var bits := FlagBits(f);
    assert bits / 2 / 2 / 2 == 0;
    assert RegisterSets.Bit(bits, 1) == RegisterSets.Bit(bits / 2, 0);
    assert RegisterSets.Bit(bits, 2) == RegisterSets.Bit(bits / 2, 1) == RegisterSets.Bit(bits / 2 / 2, 0);
    forall k: nat | k > 2
      ensures !RegisterSets.Bit(bits, k)
    {
      assert RegisterSets.Bit(bits, k) == RegisterSets.Bit(bits / 2, k - 1) == RegisterSets.Bit(bits / 2 / 2, k - 2)
          == RegisterSets.Bit(0, k - 3);
      RegisterSets.ZeroHasNoBit(k - 3);
    }
  }

  /** Zero for no name; otherwise one more than the constant, in 32-bit arithmetic. */
  function NameCode(name: Option<ConstantId>): U32 {
    match name
    case None => 0
    case Some(c) => (c + 1) % U32_LIMIT
  }

  function NameOf(code: U32): (name: Option<ConstantId>)
    ensures NameCode(name) == code
  {
    if code == 0 then None else Some(code - 1)
  }

  function HeaderIntegers(f: Function): seq<U32> {
    [NameCode(f.name), f.captureCount, f.parameterCount, f.registerCount]
  }

  function HeaderCaps(limits: DecodeLimits): seq<Cap> {
    [NO_CAP, Cap(CaptureCount, limits.maxCaptureCount), Cap(ParameterCount, limits.maxParameterCount),
     Cap(RegisterCount, limits.maxRegisterCount)]
  }

  function EncodeCodeBlock(code: seq<Instruction>): seq<byte> {
    LebLength(|code|) + EncodeCode(code)
  }

  function EncodeHandlerBlock(hs: seq<ExceptionHandler>): seq<byte> {
    LebLength(|hs|) + EncodeHandlers(hs)
  }

  function EncodeFunction(f: Function): seq<byte> {
    EncodeIntegers(HeaderIntegers(f))
    + ([FlagBits(f.flags)] + (EncodeCodeBlock(f.code) + EncodeHandlerBlock(f.handlers)))
  }

  predicate CodeFits(code: seq<Instruction>, total: nat, limits: DecodeLimits) {
    |code| <= limits.maxInstructionsPerFunction && total + |code| <= limits.maxTotalInstructions
  }

  /** Within the limits, after `total` instructions of earlier functions. */
  predicate FunctionFits(f: Function, total: nat, limits: DecodeLimits) {
    && (f.name.Some? ==> f.name.value + 1 < U32_LIMIT)
    && f.captureCount <= limits.maxCaptureCount
    && f.parameterCount <= limits.maxParameterCount
    && f.registerCount <= limits.maxRegisterCount
    && CodeFits(f.code, total, limits)
    && |f.handlers| <= limits.maxHandlersPerFunction
  }

  function ParseCodeBlock(bytes: seq<byte>, at: nat, total: nat, limits: DecodeLimits): Parsed<seq<Instruction>> {
    match ParseBounded(bytes, at, Cap(InstructionCount, limits.maxInstructionsPerFunction))
    case Bad(e) => Bad(e)
    case Got(n, middle) =>
      if total + n > limits.maxTotalInstructions
      then Bad(DecodeError(at, LimitExceeded(TotalInstructionCount, limits.maxTotalInstructions, total + n)))
      else ParseCode(bytes, middle, n)
  }

  function ParseHandlerBlock(bytes: seq<byte>, at: nat, limits: DecodeLimits): Parsed<seq<ExceptionHandler>> {
    var cap := Cap(HandlerCount, limits.maxHandlersPerFunction);
    match ParseBounded(bytes, at, cap)
    case Bad(e) => Bad(e)
    case Got(n, middle) =>
      BoundedExact(bytes, at, cap, n, middle);
      ParseHandlers(bytes, middle, n)
  }

  function ParseFlags(bytes: seq<byte>, at: nat): Parsed<FunctionFlags> {
    match ParseByte(bytes, at)
    case Bad(e) => Bad(e)
    case Got(bits, next) =>
      if bits < 8 then Got(FlagsOf(bits), next) else Bad(DecodeError(at, InvalidFunctionFlags(bits)))
  }

  function ParseFunction(bytes: seq<byte>, at: nat, total: nat, limits: DecodeLimits): Parsed<Function>
    requires at <= |bytes|
  {
    match ParseIntegers(bytes, at, HeaderCaps(limits))
    case Bad(e) => Bad(e)
    case Got(ns, a) =>
      IntegersSound(bytes, at, HeaderCaps(limits));
      match ParseFlags(bytes, a)
      case Bad(e) => Bad(e)
      case Got(flags, b) =>
        match ParseCodeBlock(bytes, b, total, limits)
        case Bad(e) => Bad(e)
        case Got(code, c) =>
          match ParseHandlerBlock(bytes, c, limits)
          case Bad(e) => Bad(e)
          case Got(handlers, next) => Got(Function(NameOf(ns[0]), ns[1], ns[2], ns[3], flags, code, handlers), next)
  }

  lemma FlagsExact(bytes: seq<byte>, at: nat, flags: FunctionFlags, next: nat)
    ensures ParseFlags(bytes, at) == Got(flags, next) <==> Occurs(bytes, at, [FlagBits(flags)], next)
  {
    ByteExact(bytes, at, FlagBits(flags), next);
    if ParseFlags(bytes, at).Got? {
      ByteExact(bytes, at, bytes[at], at + 1);
    }
  }

  lemma CodeBlockSound(bytes: seq<byte>, at: nat, total: nat, limits: DecodeLimits)
    requires ParseCodeBlock(bytes, at, total, limits).Got?
    ensures var r := ParseCodeBlock(bytes, at, total, limits);
      CodeFits(r.value, total, limits) && Occurs(bytes, at, EncodeCodeBlock(r.value), r.next)
  {
    hide ParseCode, EncodeCode, ParseBounded, Leb;
    var cap := Cap(InstructionCount, limits.maxInstructionsPerFunction);
    var n, r := ParseBounded(bytes, at, cap), ParseCodeBlock(bytes, at, total, limits);
    BoundedExact(bytes, at, cap, n.value, n.next);
    CodeSound(bytes, n.next, n.value);
    OccursConcat(bytes, at, Leb(n.value), EncodeCode(r.value), r.next);
  }

  lemma CodeBlockComplete(bytes: seq<byte>, at: nat, total: nat, limits: DecodeLimits, code: seq<Instruction>,
                          next: nat)
    requires CodeFits(code, total, limits) && Occurs(bytes, at, EncodeCodeBlock(code), next)
    ensures ParseCodeBlock(bytes, at, total, limits) == Got(code, next)
  {
    hide ParseCode, EncodeCode, ParseBounded, Leb;
    var n := Leb(|code|);
    OccursConcat(bytes, at, n, EncodeCode(code), next);
    BoundedExact(bytes, at, Cap(InstructionCount, limits.maxInstructionsPerFunction), |code|, at + |n|);
    CodeComplete(bytes, at + |n|, code, next);
  }

  lemma HandlerBlockSound(bytes: seq<byte>, at: nat, limits: DecodeLimits)
    requires ParseHandlerBlock(bytes, at, limits).Got?
    ensures var r := ParseHandlerBlock(bytes, at, limits);
      |r.value| <= limits.maxHandlersPerFunction && Occurs(bytes, at, EncodeHandlerBlock(r.value), r.next)
  {
    hide ParseHandlers, EncodeHandlers, ParseBounded, Leb;
    var cap := Cap(HandlerCount, limits.maxHandlersPerFunction);
    var n, r := ParseBounded(bytes, at, cap), ParseHandlerBlock(bytes, at, limits);
    BoundedExact(bytes, at, cap, n.value, n.next);
    HandlersSound(bytes, n.next, n.value);
    OccursConcat(bytes, at, Leb(n.value), EncodeHandlers(r.value), r.next);
  }

  lemma HandlerBlockComplete(bytes: seq<byte>, at: nat, limits: DecodeLimits, hs: seq<ExceptionHandler>, next: nat)
    requires |hs| <= limits.maxHandlersPerFunction && Occurs(bytes, at, EncodeHandlerBlock(hs), next)
    ensures ParseHandlerBlock(bytes, at, limits) == Got(hs, next)
  {
    hide ParseHandlers, EncodeHandlers, ParseBounded, Leb;
    var n := Leb(|hs|);
    OccursConcat(bytes, at, n, EncodeHandlers(hs), next);
    BoundedExact(bytes, at, Cap(HandlerCount, limits.maxHandlersPerFunction), |hs|, at + |n|);
    HandlersComplete(bytes, at + |n|, hs, next);
  }

  lemma FunctionSound(bytes: seq<byte>, at: nat, total: nat, limits: DecodeLimits)
    requires at <= |bytes| && ParseFunction(bytes, at, total, limits).Got?
    ensures var r := ParseFunction(bytes, at, total, limits);
      FunctionFits(r.value, total, limits) && Occurs(bytes, at, EncodeFunction(r.value), r.next)
  {
    hide ParseIntegers, EncodeIntegers, ParseCodeBlock, EncodeCodeBlock, ParseHandlerBlock, EncodeHandlerBlock,
         ParseFlags, FlagBits;
    var r := ParseFunction(bytes, at, total, limits);
    var f := r.value;
    var header := ParseIntegers(bytes, at, HeaderCaps(limits));
    IntegersSound(bytes, at, HeaderCaps(limits));
    assert HeaderIntegers(f) == header.value;
    var flags := ParseFlags(bytes, header.next);
    FlagsExact(bytes, header.next, flags.value, flags.next);
    var code := ParseCodeBlock(bytes, flags.next, total, limits);
    CodeBlockSound(bytes, flags.next, total, limits);
    HandlerBlockSound(bytes, code.next, limits);
    OccursConcat(bytes, flags.next, EncodeCodeBlock(f.code), EncodeHandlerBlock(f.handlers), r.next);
    OccursConcat(bytes, header.next, [FlagBits(f.flags)], EncodeCodeBlock(f.code) + EncodeHandlerBlock(f.handlers),
                 r.next);
    OccursConcat(bytes, at, EncodeIntegers(HeaderIntegers(f)),
                 [FlagBits(f.flags)] + (EncodeCodeBlock(f.code) + EncodeHandlerBlock(f.handlers)), r.next);
  }

  lemma FunctionComplete(bytes: seq<byte>, at: nat, total: nat, limits: DecodeLimits, f: Function, next: nat)
    requires at <= |bytes| && FunctionFits(f, total, limits) && Occurs(bytes, at, EncodeFunction(f), next)
    ensures ParseFunction(bytes, at, total, limits) == Got(f, next)
  {
    hide ParseIntegers, EncodeIntegers, ParseCodeBlock, EncodeCodeBlock, ParseHandlerBlock, EncodeHandlerBlock,
         ParseFlags, FlagBits;
    var header, flags := EncodeIntegers(HeaderIntegers(f)), [FlagBits(f.flags)];
    var code, handlers := EncodeCodeBlock(f.code), EncodeHandlerBlock(f.handlers);
    var a := at + |header|;
    var b := a + 1;
    var c := b + |code|;
    OccursConcat(bytes, at, header, flags + (code + handlers), next);
    OccursConcat(bytes, a, flags, code + handlers, next);
    OccursConcat(bytes, b, code, handlers, next);
    IntegersComplete(bytes, at, HeaderCaps(limits), HeaderIntegers(f), a);
    FlagsExact(bytes, a, f.flags, b);
    CodeBlockComplete(bytes, b, total, limits, f.code, c);
    HandlerBlockComplete(bytes, c, limits, f.handlers, next);
  }
}
