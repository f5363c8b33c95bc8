/** The stateful decoder: every read advances an offset, and the whole run agrees with the parser. */
module Decoding {
  import opened Base
  import opened Instructions
  import opened Bytecode
  import opened Wire
  import opened Codec
  import opened ModuleCodec
  import opened ModuleWire

  /** Reading stops inside the input. */
  lemma {:induction false} LebStops(bytes: seq<byte>, start: nat, i: nat)
    requires i <= 4 && start + i <= |bytes|
    ensures match LebFrom(bytes, start, i)
            case LebOk(_, next) => start + i < next <= |bytes|
            case LebErr(_, stopped) => start + i <= stopped <= |bytes|
    decreases 4 - i
  {
    if start + i < |bytes| && i < 4 { LebStops(bytes, start, i + 1); }
  }

  lemma IntegerOutcome(bytes: seq<byte>, at: nat)
    ensures var whole, r := ReadLeb(bytes, at), ParseInteger(bytes, at);
      match whole
      case LebOk(n, next) => r == Got(n, next)
      case LebErr(UnexpectedEof, stopped) => r == Bad(DecodeError(stopped, EndOfInput))
      case LebErr(IntegerOverflow, _) => r == Bad(DecodeError(at, IntegerTooWide))
      case LebErr(NonCanonicalInteger, _) => r == Bad(DecodeError(at, OverlongInteger))
  {}

  // ---- the extension cursor

  /** The reader of the extension opcodes: its own copy of the integer loop. */
  class Cursor {
    const bytes: seq<byte>
    var offset: nat

    constructor (bytes: seq<byte>, offset: nat)
      ensures this.bytes == bytes && this.offset == offset
    {
      this.bytes := bytes;
      this.offset := offset;
    }

    method Byte() returns (r: Result<byte, DecodeError>)
      modifies this`offset
      ensures old(offset) < |bytes| ==> r == Ok(bytes[old(offset)]) && offset == old(offset) + 1
      ensures old(offset) >= |bytes| ==> r == Err(DecodeError(offset, EndOfInput)) && offset == old(offset)
    {
      if offset >= |bytes| { return Err(DecodeError(offset, EndOfInput)); }
      r := Ok(bytes[offset]);
      offset := offset + 1;
    }

    /** The same value, consumed length, error kind and error offset as the other reader, on every input. */
    method Leb128() returns (r: Result<U32, DecodeError>)
      modifies this`offset
      ensures match ParseInteger(bytes, old(offset))
              case Got(n, next) => r == Ok(n) && offset == next
              case Bad(e) => r == Err(e)
    {
      hide *;
      ghost var whole := ReadLeb(bytes, offset);
      ReadingStarts(bytes, offset);
      IntegerOutcome(bytes, offset);
      var start: nat, result: nat, group: nat := offset, 0, 0;
      while true
        invariant group <= 4 && offset == start + group
        invariant Reading(whole, result, bytes, start, group)
        decreases 4 - group
      {
        if start + group >= |bytes| { ReadCutShort(whole, result, bytes, start, group); }
        var read := Byte();
        if read.Err? { return Err(read.error); }
        var b := read.value;
        ReadGroup(whole, result, bytes, start, group, b);
        if group == 4 {
          if b >= 128 || b > 15 { return Err(DecodeError(start, IntegerTooWide)); }
          if b == 0 { return Err(DecodeError(start, OverlongInteger)); }
          return Ok(Placed(result, b, 4));
        }
        result := Placed(result, LowBits(b), group);
        if b < 128 {
          if b == 0 && offset - start > 1 { return Err(DecodeError(start, OverlongInteger)); }
          return Ok(result);
        }
        group := group + 1;
      }
    }

    /** Consecutive operands. */
    method Integers(k: nat) returns (r: Result<seq<U32>, DecodeError>)
      modifies this`offset
      ensures Agrees(r, ParseIntegers(bytes, old(offset), Free(k)), offset)
    {
      hide ParseInteger;
      var caps := Free(k);
      var ns: seq<U32> := [];
      assert caps[0..] == caps;
      PrependNone(ParseIntegers(bytes, offset, caps));
      for i := 0 to k
        invariant ParseIntegers(bytes, old(offset), caps) == Prepend(ns, ParseIntegers(bytes, offset, caps[i..]))
      {
        var n := Leb128();
        assert caps[i..][0] == NO_CAP && caps[i..][1..] == caps[i + 1..];
        if n.Err? { return Err(n.error); }
        PrependTwice(ns, n.value, ParseIntegers(bytes, offset, caps[i + 1..]));
        ns := ns + [n.value];
      }
      assert caps[k..] == [];
      PrependEnd(ns, ParseIntegers(bytes, offset, []));
      r := Ok(ns);
    }
  }

  const FIRST_EXTENSION_TAG: byte := 52

  /** The extension reader's own operand counts. */
  function ExtensionArity(tag: byte): nat
    requires FIRST_EXTENSION_TAG <= tag < OPCODE_COUNT
  {
    match tag
    case 52 => 4
    case 53 => 4
    case 54 => 3
    case 55 => 3
    case 56 => 3
    case _ => 3
  }

  /** The extension reader's own constructors. */
  function ExtensionOf(tag: byte, ns: seq<U32>): Instruction
    requires FIRST_EXTENSION_TAG <= tag < OPCODE_COUNT && |ns| == ExtensionArity(tag)
  {
    match tag
    case 52 => GetSuper(ns[0], ns[1], ns[2], ns[3])
    case 53 => SetSuper(ns[0], ns[1], ns[2], ns[3])
    case 54 => ImportAttributes(ns[0], ns[1], ns[2])
    case 55 => ImportDynamicAttributes(ns[0], ns[1], ns[2])
    case 56 => CopyDataProperties(ns[0], ns[1], ns[2])
    case _ => GetTemplateObject(ns[0], ns[1], ns[2])
  }

  /** The two readers take the same operands behind an extension tag and build the same instruction. */
  lemma ExtensionAgrees(tag: byte, ns: seq<U32>)
    requires FIRST_EXTENSION_TAG <= tag < OPCODE_COUNT
    ensures LayoutOf(tag) == Layout(ExtensionArity(tag), None, 0)
    ensures |ns| == ExtensionArity(tag) ==>
              ExtensionOf(tag, ns) == Assemble(Join(tag, Operands(ns, None, [])))
  {
    match tag
    case 52 =>
    case 53 =>
    case 54 =>
    case 55 =>
    case 56 =>
    case 57 =>
  }

  /** Decodes the instruction behind an already-read extension tag, as the root decoder would. */
  method DecodeFromTag(tag: byte, bytes: seq<byte>, offset: nat) returns (r: Result<(Instruction, nat), DecodeError>)
    requires offset <= |bytes|
    ensures FIRST_EXTENSION_TAG <= tag < OPCODE_COUNT ==>
              match ParseOperands(bytes, offset, LayoutOf(tag))
              case Got(x, next) =>
                FitsOperands(x, LayoutOf(tag)) && r == Ok((Assemble(Join(tag, x)), next))
              case Bad(e) => r == Err(e)
    ensures !(FIRST_EXTENSION_TAG <= tag < OPCODE_COUNT) ==>
              r == Err(DecodeError(if offset == 0 then 0 else offset - 1, InvalidOpcode(tag)))
  {
    if !(FIRST_EXTENSION_TAG <= tag < OPCODE_COUNT) {
      return Err(DecodeError(if offset == 0 then 0 else offset - 1, InvalidOpcode(tag)));
    }
    hide LayoutOf, Assemble, Join, ExtensionOf, ExtensionArity;
    ExtensionAgrees(tag, []);
    var cursor := new Cursor(bytes, offset);
    var ns := cursor.Integers(ExtensionArity(tag));
    if ns.Err? { return Err(ns.error); }
    IntegersLength(bytes, offset, Free(ExtensionArity(tag)));
    ExtensionAgrees(tag, ns.value);
    assert ParseIntegers(bytes, cursor.offset, Free(0)) == Got([], cursor.offset);
    r := Ok((ExtensionOf(tag, ns.value), cursor.offset));
  }

  // ---- the root decoder

  class Decoder {
    const bytes: seq<byte>
    const limits: DecodeLimits
    var offset: nat
    var totalInstructions: nat
    /** Elements for which storage has been reserved so far. */
    ghost var reserved: nat

    ghost predicate Valid()
      reads this
    {
      offset <= |bytes|
    }

    constructor (bytes: seq<byte>, limits: DecodeLimits)
      ensures this.bytes == bytes && this.limits == limits
      ensures Valid() && offset == 0 && totalInstructions == 0 && reserved == 0
    {
      this.bytes := bytes;
      this.limits := limits;
      offset := 0;
      totalInstructions := 0;
      reserved := 0;
    }

    /** Never more than the remaining input, of which each element takes at least one byte. */
    function Capacity(count: nat): (r: nat)
      requires Valid()
      reads this
      ensures r <= count && r <= |bytes| - offset
      ensures count <= |bytes| - offset ==> r == count
    {
      if count <= |bytes| - offset then count else |bytes| - offset
    }

    method Byte() returns (r: Result<byte, DecodeError>)
      requires Valid()
      modifies this`offset
      ensures Valid() && old(offset) <= offset && Agrees(r, ParseByte(bytes, old(offset)), offset)
    {
      if offset >= |bytes| { return Err(DecodeError(offset, EndOfInput)); }
      r := Ok(bytes[offset]);
      offset := offset + 1;
    }

    method Slice(length: nat) returns (r: Result<seq<byte>, DecodeError>)
      requires Valid()
      modifies this`offset
      ensures Valid() && old(offset) <= offset && Agrees(r, ParseSlice(bytes, old(offset), length), offset)
    {
      if offset + length > |bytes| { return Err(DecodeError(offset, EndOfInput)); }
      r := Ok(bytes[offset..offset + length]);
      offset := offset + length;
    }

    method Leb128() returns (r: Result<U32, DecodeError>)
      requires Valid()
      modifies this`offset
      ensures Valid() && old(offset) <= offset && Agrees(r, ParseInteger(bytes, old(offset)), offset)
    {
      var start := offset;
      var read := ReadLeb128(bytes, offset);
      LebStops(bytes, offset, 0);
      match read {
        case LebOk(n, next) =>
          offset := next;
          r := Ok(n);
        case LebErr(error, stopped) =>
          offset := stopped;
          r := Err(LebFailure(start, error, stopped));
      }
    }

    method Bounded(cap: Cap) returns (r: Result<U32, DecodeError>)
      requires Valid()
      modifies this`offset
      ensures Valid() && old(offset) <= offset && Agrees(r, ParseBounded(bytes, old(offset), cap), offset)
    {
      var at := offset;
      r := Leb128();
      if r.Ok? && r.value > cap.max {
        r := Err(DecodeError(at, LimitExceeded(cap.quantity, cap.max, r.value)));
      }
    }

    /** Consecutive integers, in order. */
    method Integers(caps: seq<Cap>) returns (r: Result<seq<U32>, DecodeError>)
      requires Valid()
      modifies this`offset
      ensures Valid() && old(offset) <= offset && Agrees(r, ParseIntegers(bytes, old(offset), caps), offset)
    {
      hide ParseBounded;
      var ns: seq<U32> := [];
      assert caps[0..] == caps;
      PrependNone(ParseIntegers(bytes, offset, caps));
      for k := 0 to |caps|
        invariant Valid() && old(offset) <= offset
        invariant ParseIntegers(bytes, old(offset), caps) == Prepend(ns, ParseIntegers(bytes, offset, caps[k..]))
      {
        var n := Bounded(caps[k]);
        assert caps[k..][0] == caps[k] && caps[k..][1..] == caps[k + 1..];
        if n.Err? { return Err(n.error); }
        PrependTwice(ns, n.value, ParseIntegers(bytes, offset, caps[k + 1..]));
        ns := ns + [n.value];
      }
      assert caps[|caps|..] == [];
      PrependEnd(ns, ParseIntegers(bytes, offset, []));
      r := Ok(ns);
    }

    method Operator(family: Family) returns (r: Result<Option<byte>, DecodeError>)
      requires Valid()
      modifies this`offset
      ensures Valid() && old(offset) <= offset && Agrees(r, ParseOperator(bytes, old(offset), Some(family)), offset)
    {
      var at := offset;
      var tag := Byte();
      if tag.Err? { return Err(tag.error); }
      if tag.value >= FamilySize(family) { return Err(DecodeError(at, InvalidOperator(family, tag.value))); }
      r := Ok(Some(tag.value));
    }

    method OperandsOf(layout: Layout) returns (r: Result<Operands, DecodeError>)
      requires Valid()
      modifies this`offset
      ensures Valid() && old(offset) <= offset && Agrees(r, ParseOperands(bytes, old(offset), layout), offset)
    {
      hide ParseIntegers, ParseByte;
      var leading := Integers(Free(layout.before));
      if leading.Err? { return Err(leading.error); }
      var operator: Option<byte> := None;
      if layout.family.Some? {
        var read := Operator(layout.family.value);
        if read.Err? { return Err(read.error); }
        operator := read.value;
      }
      var trailing := Integers(Free(layout.after));
      if trailing.Err? { return Err(trailing.error); }
      r := Ok(Operands(leading.value, operator, trailing.value));
    }

    /** One instruction; extension tags go through the extension reader. */
    method Instruction() returns (r: Result<Instruction, DecodeError>)
      requires Valid()
      modifies this`offset
      ensures Valid() && old(offset) <= offset && Agrees(r, ParseInstruction(bytes, old(offset)), offset)
    {
      hide ParseOperands, EncodeOperands, LayoutOf, Assemble, Join;
      var at := offset;
      var op := Byte();
      if op.Err? { return Err(op.error); }
      if op.value >= OPCODE_COUNT { return Err(DecodeError(at, InvalidOpcode(op.value))); }
      if op.value >= FIRST_EXTENSION_TAG {
        var extension := DecodeFromTag(op.value, bytes, offset);
        if extension.Err? { return Err(extension.error); }
        OperandsSound(bytes, offset, LayoutOf(op.value));
        offset := extension.value.1;
        return Ok(extension.value.0);
      }
      var middle := offset;
      var operands := OperandsOf(LayoutOf(op.value));
      if operands.Err? { return Err(operands.error); }
      OperandsSound(bytes, middle, LayoutOf(op.value));
      r := Ok(Assemble(Join(op.value, operands.value)));
    }

    method Counted(cap: Cap, wide: bool) returns (r: Result<seq<byte>, DecodeError>)
      requires Valid()
      modifies this`offset
      ensures Valid() && old(offset) <= offset && Agrees(r, ParseCounted(bytes, old(offset), cap, wide), offset)
    {
      hide ParseBounded;
      var n := Bounded(cap);
      if n.Err? { return Err(n.error); }
      var length: nat := n.value;
      r := Slice(if wide then length + length else length);
    }

    method ConstantPayload(tag: byte) returns (r: Result<Constant, DecodeError>)
      requires Valid() && tag in {0, 1, 2, 7}
      modifies this`offset
      ensures Valid() && old(offset) <= offset
      ensures tag == 0 ==> Agrees(r, ParseNumber(bytes, old(offset)), offset)
      ensures tag == 1 ==> Agrees(r, ParseInt32(bytes, old(offset)), offset)
      ensures tag == 2 ==> Agrees(r, ParseString(bytes, old(offset), limits), offset)
      ensures tag == 7 ==> Agrees(r, ParseBigInt(bytes, old(offset), limits), offset)
    {
      hide ParseCounted, EncodeUnits, IsUtf8, FromLittleEndian, IsCanonicalNumber, IsCanonicalBigInt;
      var at := offset;
      if tag == 0 {
        var s := Slice(8);
        if s.Err? { return Err(s.error); }
        var bits := FromLittleEndian(s.value);
        if !IsCanonicalNumber(bits) { return Err(DecodeError(at, NonCanonicalNumber(bits))); }
        return Ok(Number(bits));
      }
      if tag == 1 {
        var s := Slice(4);
        if s.Err? { return Err(s.error); }
        Pow256Values();
        LittleEndianInvertsFrom(s.value);
        return Ok(Int32Value(ToSigned32(FromLittleEndian(s.value))));
      }
      if tag == 2 {
        CountedIsEven(bytes, at, Cap(StringUnitCount, limits.maxStringUnits));
        var s := Counted(Cap(StringUnitCount, limits.maxStringUnits), true);
        if s.Err? { return Err(s.error); }
        return Ok(Text(DecodeUnits(s.value)));
      }
      var s := Counted(Cap(BigIntByteLength, limits.maxBigIntBytes), false);
      if s.Err? { return Err(s.error); }
      CountedIsInside(bytes, at, Cap(BigIntByteLength, limits.maxBigIntBytes), false);
      if !IsUtf8(s.value) { return Err(DecodeError(offset - |s.value|, InvalidUtf8)); }
      if !IsCanonicalBigInt(s.value) { return Err(DecodeError(at, InvalidBigInt)); }
      return Ok(BigInt(s.value));
    }

    method ConstantValue() returns (r: Result<Constant, DecodeError>)
      requires Valid()
      modifies this`offset
      ensures Valid() && old(offset) <= offset && Agrees(r, ParseConstant(bytes, old(offset), limits), offset)
    {
      hide ParseNumber, ParseInt32, ParseString, ParseBigInt;
      var at := offset;
      var tag := Byte();
      if tag.Err? { return Err(tag.error); }
      if tag.value in {0, 1, 2, 7} {
        r := ConstantPayload(tag.value);
        return;
      }
      match tag.value {
        case 3 => r := Ok(Boolean(false));
        case 4 => r := Ok(Boolean(true));
        case 5 => r := Ok(Null);
        case 6 => r := Ok(Undefined);
        case _ => r := Err(DecodeError(at, InvalidConstantTag(tag.value)));
      }
    }

    /** Instruction count, running total, instructions. On success the storage reserved is exactly what
        was read; otherwise it was at most the input that remained. */
    method Code() returns (r: Result<seq<Instruction>, DecodeError>)
      requires Valid()
      modifies this
      ensures Valid() && old(offset) <= offset
      ensures Agrees(r, ParseCodeBlock(bytes, old(offset), old(totalInstructions), limits), offset)
      ensures r.Ok? ==> totalInstructions == old(totalInstructions) + |r.value|
      ensures r.Ok? ==> reserved == old(reserved) + |r.value| <= old(reserved) + (offset - old(offset))
      ensures reserved <= old(reserved) + (|bytes| - old(offset))
    {
      hide ParseBounded, ParseInstruction, EncodeCode, Leb;
      var at := offset;
      var n := Bounded(Cap(InstructionCount, limits.maxInstructionsPerFunction));
      if n.Err? { return Err(n.error); }
      totalInstructions := totalInstructions + n.value;
      if totalInstructions > limits.maxTotalInstructions {
        var over := LimitExceeded(TotalInstructionCount, limits.maxTotalInstructions, totalInstructions);
        return Err(DecodeError(at, over));
      }
      var start := offset;
      reserved := reserved + Capacity(n.value);
      ghost var capacity := reserved - old(reserved);
      var code: seq<Instruction> := [];
      PrependNone(ParseCode(bytes, start, n.value));
      for k := 0 to n.value
        invariant Valid() && start <= offset && |code| == k
        invariant totalInstructions == old(totalInstructions) + n.value && reserved == old(reserved) + capacity
        invariant ParseCode(bytes, start, n.value) == Prepend(code, ParseCode(bytes, offset, n.value - k))
      {
        var i := Instruction();
        if i.Err? { return Err(i.error); }
        PrependTwice(code, i.value, ParseCode(bytes, offset, n.value - k - 1));
        code := code + [i.value];
      }
      PrependEnd(code, ParseCode(bytes, offset, 0));
      CodeSound(bytes, start, n.value);
      r := Ok(code);
    }

    /** Handler count and handlers; storage as for instructions. */
    method HandlerTable() returns (r: Result<seq<ExceptionHandler>, DecodeError>)
      requires Valid()
      modifies this`offset, this`reserved
      ensures Valid() && old(offset) <= offset
      ensures Agrees(r, ParseHandlerBlock(bytes, old(offset), limits), offset)
      ensures r.Ok? ==> reserved == old(reserved) + |r.value| <= old(reserved) + (offset - old(offset))
      ensures reserved <= old(reserved) + (|bytes| - old(offset))
    {
      hide ParseBounded, ParseIntegers, EncodeIntegers, EncodeHandlers, Leb;
      var n := Bounded(Cap(HandlerCount, limits.maxHandlersPerFunction));
      if n.Err? { return Err(n.error); }
      var start := offset;
      reserved := reserved + Capacity(n.value);
      ghost var capacity := reserved - old(reserved);
      var handlers: seq<ExceptionHandler> := [];
      PrependNone(ParseHandlers(bytes, start, n.value));
      for k := 0 to n.value
        invariant Valid() && start <= offset && |handlers| == k
        invariant reserved == old(reserved) + capacity
        invariant ParseHandlers(bytes, start, n.value) == Prepend(handlers, ParseHandlers(bytes, offset, n.value - k))
      {
        IntegersLength(bytes, offset, Free(4));
        var ns := Integers(Free(4));
        if ns.Err? { return Err(ns.error); }
        var h := ExceptionHandler(ns.value[0], ns.value[1], ns.value[2], ns.value[3]);
        PrependTwice(handlers, h, ParseHandlers(bytes, offset, n.value - k - 1));
        handlers := handlers + [h];
      }
      PrependEnd(handlers, ParseHandlers(bytes, offset, 0));
      HandlersSound(bytes, start, n.value);
      r := Ok(handlers);
    }

    method Flags() returns (r: Result<FunctionFlags, DecodeError>)
      requires Valid()
      modifies this`offset
      ensures Valid() && old(offset) <= offset && Agrees(r, ParseFlags(bytes, old(offset)), offset)
      ensures r.Ok? ==> offset == old(offset) + 1
    {
      var at := offset;
      var bits := Byte();
      if bits.Err? { return Err(bits.error); }
      if bits.value >= 8 { return Err(DecodeError(at, InvalidFunctionFlags(bits.value))); }
      r := Ok(FlagsOf(bits.value));
    }

    method FunctionRecord() returns (r: Result<Function, DecodeError>)
      requires Valid()
      modifies this
      ensures Valid() && old(offset) <= offset
      ensures Agrees(r, ParseFunction(bytes, old(offset), old(totalInstructions), limits), offset)
      ensures r.Ok? ==> totalInstructions == old(totalInstructions) + |r.value.code|
      ensures r.Ok? ==> reserved < old(reserved) + (offset - old(offset))
      ensures reserved <= old(reserved) + (|bytes| - old(offset))
    {
      hide ParseIntegers, EncodeIntegers, ParseFlags, ParseCodeBlock, ParseHandlerBlock;
      IntegersLength4(bytes, offset, limits);
      var header := Integers(HeaderCaps(limits));
      if header.Err? { return Err(header.error); }
      var flags := Flags();
      if flags.Err? { return Err(flags.error); }
      var code := Code();
      if code.Err? { return Err(code.error); }
      var handlers := HandlerTable();
      if handlers.Err? { return Err(handlers.error); }
      var ns := header.value;
      r := Ok(Function(NameOf(ns[0]), ns[1], ns[2], ns[3], flags.value, code.value, handlers.value));
    }

    method ConstantPool() returns (r: Result<seq<Constant>, DecodeError>)
      requires Valid()
      modifies this`offset, this`reserved
      ensures Valid() && old(offset) <= offset
      ensures Agrees(r, ParseConstantBlock(bytes, old(offset), limits), offset)
      ensures r.Ok? ==> reserved <= old(reserved) + (offset - old(offset))
      ensures reserved <= old(reserved) + (|bytes| - old(offset))
    {
      hide ParseBounded, ParseConstant, EncodeConstants, Leb;
      var n := Bounded(ConstantCap(limits));
      if n.Err? { return Err(n.error); }
      var start := offset;
      reserved := reserved + Capacity(n.value);
      ghost var capacity := reserved - old(reserved);
      var constants: seq<Constant> := [];
      PrependNone(ParseConstants(bytes, start, n.value, limits));
      for k := 0 to n.value
        invariant Valid() && start <= offset && |constants| == k
        invariant reserved == old(reserved) + capacity
        invariant ParseConstants(bytes, start, n.value, limits)
                  == Prepend(constants, ParseConstants(bytes, offset, n.value - k, limits))
      {
        var c := ConstantValue();
        if c.Err? { return Err(c.error); }
        PrependTwice(constants, c.value, ParseConstants(bytes, offset, n.value - k - 1, limits));
        constants := constants + [c.value];
      }
      PrependEnd(constants, ParseConstants(bytes, offset, 0, limits));
      ConstantsSound(bytes, start, n.value, limits);
      r := Ok(constants);
    }

    /** Function count, entry, functions: the storage reserved is within twice the remaining input, and
        within the bytes read when the table is read to its end. */
    method FunctionTable() returns (r: Result<(FunctionId, seq<Function>), DecodeError>)
      requires Valid() && totalInstructions == 0
      modifies this
      ensures Valid() && old(offset) <= offset
      ensures Agrees(r, ParseFunctionBlock(bytes, old(offset), limits), offset)
      ensures r.Ok? ==> reserved <= old(reserved) + (offset - old(offset))
      ensures reserved <= old(reserved) + 2 * (|bytes| - old(offset))
    {
      hide ParseBounded, ParseFunction, EncodeFunctions, Leb;
      var n := Bounded(FunctionCap(limits));
      if n.Err? { return Err(n.error); }
      var entry := Bounded(NO_CAP);
      if entry.Err? { return Err(entry.error); }
      var start := offset;
      reserved := reserved + Capacity(n.value);
      ghost var capacity := reserved - old(reserved);
      var functions: seq<Function> := [];
      PrependNone(ParseFunctions(bytes, start, n.value, 0, limits));
      for k := 0 to n.value
        invariant Valid() && start <= offset && |functions| == k
        invariant reserved + k <= old(reserved) + capacity + (offset - start)
        invariant ParseFunctions(bytes, start, n.value, 0, limits)
                  == Prepend(functions, ParseFunctions(bytes, offset, n.value - k, totalInstructions, limits))
      {
        var f := FunctionRecord();
        if f.Err? { return Err(f.error); }
        PrependTwice(functions, f.value, ParseFunctions(bytes, offset, n.value - k - 1, totalInstructions, limits));
        functions := functions + [f.value];
      }
      PrependEnd(functions, ParseFunctions(bytes, offset, 0, totalInstructions, limits));
      r := Ok((entry.value, functions));
    }

    method Preamble() returns (r: Result<(), DecodeError>)
      requires Valid() && offset == 0
      modifies this`offset
      ensures Valid() && Agrees(r, ParsePreamble(bytes), offset)
    {
      for k := 0 to |MAGIC|
        invariant Valid()
        invariant ParseMagic(bytes, 0, MAGIC) == ParseMagic(bytes, offset, MAGIC[k..])
      {
        var at := offset;
        var b := Byte();
        assert MAGIC[k..][0] == MAGIC[k] && MAGIC[k..][1..] == MAGIC[k + 1..];
        if b.Err? { return Err(b.error); }
        if b.value != MAGIC[k] { return Err(DecodeError(at, BadMagic(MAGIC[k], b.value))); }
      }
      assert MAGIC[|MAGIC|..] == [];
      var at := offset;
      var version := Byte();
      if version.Err? { return Err(version.error); }
      if version.value != FORMAT_VERSION { return Err(DecodeError(at, UnsupportedVersion(version.value))); }
      r := Ok(());
    }

    method ModuleRecord() returns (r: Result<Module, DecodeError>)
      requires Valid() && offset == 0 && totalInstructions == 0 && reserved == 0
      modifies this
      ensures Valid() && Agrees(r, ParseModule(bytes, limits), offset)
      ensures r.Ok? ==> reserved <= offset
      ensures reserved <= 2 * |bytes|
    {
      hide ParsePreamble, ParseConstantBlock, ParseFunctionBlock;
      var preamble := Preamble();
      if preamble.Err? { return Err(preamble.error); }
      var constants := ConstantPool();
      if constants.Err? { return Err(constants.error); }
      var table := FunctionTable();
      if table.Err? { return Err(table.error); }
      r := Ok(Module(constants.value, table.value.1, table.value.0));
    }
  }

  lemma CountedIsInside(bytes: seq<byte>, at: nat, cap: Cap, wide: bool)
    requires ParseCounted(bytes, at, cap, wide).Got?
    ensures |ParseCounted(bytes, at, cap, wide).value| <= ParseCounted(bytes, at, cap, wide).next
  {}

  lemma CountedIsEven(bytes: seq<byte>, at: nat, cap: Cap)
    ensures ParseCounted(bytes, at, cap, true).Got? ==> |ParseCounted(bytes, at, cap, true).value| % 2 == 0
  {
    if ParseCounted(bytes, at, cap, true).Got? { var n := CountedSound(bytes, at, cap, true); }
  }

  lemma IntegersLength(bytes: seq<byte>, at: nat, caps: seq<Cap>)
    requires at <= |bytes|
    ensures ParseIntegers(bytes, at, caps).Got? ==> |ParseIntegers(bytes, at, caps).value| == |caps|
  {
    if ParseIntegers(bytes, at, caps).Got? { IntegersSound(bytes, at, caps); }
  }

  lemma IntegersLength4(bytes: seq<byte>, at: nat, limits: DecodeLimits)
    requires at <= |bytes|
    ensures ParseIntegers(bytes, at, HeaderCaps(limits)).Got? ==>
              |ParseIntegers(bytes, at, HeaderCaps(limits)).value| == 4
  {
    IntegersLength(bytes, at, HeaderCaps(limits));
  }

  /** The decoder run over a whole input gives exactly what the parser gives, and reserves storage for at
      most twice as many elements as there are bytes: at most as many when it succeeds. */
  method DecodeBytes(bytes: seq<byte>, limits: DecodeLimits)
    returns (r: Result<Module, DecodeError>, ghost reserved: nat)
    ensures r == Decode(bytes, limits)
    ensures reserved <= 2 * |bytes|
    ensures r.Ok? ==> reserved <= |bytes|
  {
    hide ParseModule;
    reserved := 0;
    if |bytes| > limits.maxBytes {
      return Err(DecodeError(0, InputLimitExceeded(limits.maxBytes, |bytes|))), reserved;
    }
    var decoder := new Decoder(bytes, limits);
    var m := decoder.ModuleRecord();
    reserved := decoder.reserved;
    if m.Err? { return Err(m.error), reserved; }
    if decoder.offset != |bytes| {
      return Err(DecodeError(decoder.offset, TrailingBytes(|bytes| - decoder.offset))), reserved;
    }
    r := Ok(m.value);
  }
}
