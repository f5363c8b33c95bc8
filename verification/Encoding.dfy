/** The encoders as they run: bytes pushed onto an output buffer, proved to append the wire format. */
module Encoding {
  import opened Base
  import opened Instructions
  import opened Bytecode
  import opened Wire
  import opened Codec
  import opened ModuleCodec
  import opened ModuleWire

  method WriteLength(n: nat, output: seq<byte>) returns (out: seq<byte>)
    ensures out == output + LebLength(n)
  {
    out := WriteU32(n % U32_LIMIT, output);
  }

  method WriteIntegers(ns: seq<U32>, output: seq<byte>) returns (out: seq<byte>)
    ensures out == output + EncodeIntegers(ns)
  {
    hide Leb;
    out := output;
    assert ns[0..] == ns;
    for k := 0 to |ns|
      invariant out + EncodeIntegers(ns[k..]) == output + EncodeIntegers(ns)
    {
      ghost var was := out;
      assert ns[k..][1..] == ns[k + 1..];
      out := WriteU32(ns[k], out);
      assert out + EncodeIntegers(ns[k + 1..]) == was + (Leb(ns[k]) + EncodeIntegers(ns[k + 1..]));
    }
    assert ns[|ns|..] == [];
    assert out + [] == out;
  }

  method WriteUnits(units: EcmaString, output: seq<byte>) returns (out: seq<byte>)
    ensures out == output + EncodeUnits(units)
  {
    out := output;
    assert units[0..] == units;
    for k := 0 to |units|
      invariant out + EncodeUnits(units[k..]) == output + EncodeUnits(units)
    {
      ghost var was := out;
      var pair: seq<byte> := [units[k] % 256, units[k] / 256];
      assert units[k..][1..] == units[k + 1..];
      out := out + pair;
      assert out + EncodeUnits(units[k + 1..]) == was + (pair + EncodeUnits(units[k + 1..]));
    }
    assert units[|units|..] == [];
    assert out + [] == out;
  }

  method WriteConstant(c: Constant, output: seq<byte>) returns (out: seq<byte>)
    ensures out == output + EncodeConstant(c)
  {
    hide Leb, EncodeUnits, LittleEndian;
    out := output + [ConstantTag(c)];
    match c {
      case Number(bits) => out := out + LittleEndian(bits, 8);
      case Int32Value(n) => out := out + LittleEndian(ToUnsigned32(n), 4);
      case Text(units) =>
        out := WriteLength(|units|, out);
        out := WriteUnits(units, out);
      case BigInt(digits) =>
        out := WriteLength(|digits|, out);
        out := out + digits;
      case _ =>
    }
    assert out == output + ([ConstantTag(c)] + Payload(c));
  }

  method WriteInstruction(i: Instruction, output: seq<byte>) returns (out: seq<byte>)
    ensures out == output + EncodeInstruction(i)
  {
    hide EncodeIntegers, Disassemble;
    var p := Disassemble(i);
    var x := Split(p);
    out := output + [p.op];
    out := WriteIntegers(x.leading, out);
    if x.operator.Some? { out := out + [x.operator.value]; }
    out := WriteIntegers(x.trailing, out);
    assert out == output + ([p.op] + EncodeOperands(x));
  }

  method WriteCode(code: seq<Instruction>, output: seq<byte>) returns (out: seq<byte>)
    ensures out == output + EncodeCode(code)
  {
    hide EncodeInstruction;
    out := output;
    assert code[0..] == code;
    for k := 0 to |code|
      invariant out + EncodeCode(code[k..]) == output + EncodeCode(code)
    {
      ghost var was := out;
      assert code[k..][1..] == code[k + 1..];
      out := WriteInstruction(code[k], out);
      assert out + EncodeCode(code[k + 1..]) == was + (EncodeInstruction(code[k]) + EncodeCode(code[k + 1..]));
    }
    assert code[|code|..] == [];
    assert out + [] == out;
  }

  method WriteHandlers(hs: seq<ExceptionHandler>, output: seq<byte>) returns (out: seq<byte>)
    ensures out == output + EncodeHandlers(hs)
  {
    hide EncodeIntegers;
    out := output;
    assert hs[0..] == hs;
    for k := 0 to |hs|
      invariant out + EncodeHandlers(hs[k..]) == output + EncodeHandlers(hs)
    {
      ghost var was := out;
      assert hs[k..][1..] == hs[k + 1..];
      out := WriteIntegers(HandlerIntegers(hs[k]), out);
      assert out + EncodeHandlers(hs[k + 1..])
             == was + (EncodeIntegers(HandlerIntegers(hs[k])) + EncodeHandlers(hs[k + 1..]));
    }
    assert hs[|hs|..] == [];
    assert out + [] == out;
  }

  method WriteFunction(f: Function, output: seq<byte>) returns (out: seq<byte>)
    ensures out == output + EncodeFunction(f)
  {
    hide EncodeIntegers, EncodeCode, EncodeHandlers, Leb;
    out := WriteIntegers(HeaderIntegers(f), output);
    out := out + [FlagBits(f.flags)];
    out := WriteLength(|f.code|, out);
    out := WriteCode(f.code, out);
    out := WriteLength(|f.handlers|, out);
    out := WriteHandlers(f.handlers, out);
    assert out == output + EncodeFunction(f);
  }

  method WriteConstants(cs: seq<Constant>, output: seq<byte>) returns (out: seq<byte>)
    ensures out == output + EncodeConstants(cs)
  {
    hide EncodeConstant;
    out := output;
    assert cs[0..] == cs;
    for k := 0 to |cs|
      invariant out + EncodeConstants(cs[k..]) == output + EncodeConstants(cs)
    {
      ghost var was := out;
      assert cs[k..][1..] == cs[k + 1..];
      out := WriteConstant(cs[k], out);
      assert out + EncodeConstants(cs[k + 1..]) == was + (EncodeConstant(cs[k]) + EncodeConstants(cs[k + 1..]));
    }
    assert cs[|cs|..] == [];
    assert out + [] == out;
  }

  method WriteFunctions(fs: seq<Function>, output: seq<byte>) returns (out: seq<byte>)
    ensures out == output + EncodeFunctions(fs)
  {
    hide EncodeFunction;
    out := output;
    assert fs[0..] == fs;
    for k := 0 to |fs|
      invariant out + EncodeFunctions(fs[k..]) == output + EncodeFunctions(fs)
    {
      ghost var was := out;
      assert fs[k..][1..] == fs[k + 1..];
      out := WriteFunction(fs[k], out);
      assert out + EncodeFunctions(fs[k + 1..]) == was + (EncodeFunction(fs[k]) + EncodeFunctions(fs[k + 1..]));
    }
    assert fs[|fs|..] == [];
    assert out + [] == out;
  }

  /** The deterministic canonical representation. */
  method WriteModule(m: Module) returns (out: seq<byte>)
    ensures out == EncodeModule(m)
  {
    hide EncodeConstants, EncodeFunctions, Leb;
    out := MAGIC + [FORMAT_VERSION];
    out := WriteLength(|m.constants|, out);
    out := WriteConstants(m.constants, out);
    out := WriteLength(|m.functions|, out);
    out := WriteU32(m.entry, out);
    out := WriteFunctions(m.functions, out);
    assert out == EncodeModule(m);
  }
}
