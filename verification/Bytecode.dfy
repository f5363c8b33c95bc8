/** Functions, constants and modules of the bytecode format. */
module Bytecode {
  import opened Base
  import RegisterSets
  import opened Instructions

  /** A half-open protected range, its handler entry, and the register that receives the thrown value. */
  datatype ExceptionHandler = ExceptionHandler(start: Pc, end: Pc, handler: Pc, catchRegister: Register)

  predicate Protects(h: ExceptionHandler, pc: int) {
    h.start <= pc < h.end
  }

  datatype FunctionFlags = FunctionFlags(isAsync: bool, isGenerator: bool, isConstructable: bool)

  datatype Function = Function(
    name: Option<ConstantId>,
    captureCount: U32,
    parameterCount: U32,
    registerCount: U32,
    flags: FunctionFlags,
    code: seq<Instruction>,
    handlers: seq<ExceptionHandler>)

  const CANONICAL_NAN: nat := 0x7ff8_0000_0000_0000

  /** The bits above either infinity: all exponent bits set and a non-zero fraction. */
  predicate IsNan(bits: nat) {
    || 0x7ff0_0000_0000_0000 < bits < 0x8000_0000_0000_0000
    || 0xfff0_0000_0000_0000 < bits < 0x1_0000_0000_0000_0000
  }

  const EXPONENT_MASK: nat := 0x7ff0_0000_0000_0000
  const FRACTION_MASK: nat := 0x000f_ffff_ffff_ffff

  /** The source's test: all exponent bits set and some fraction bit. */
  lemma NanIsMaskTest(bits: nat)
    requires bits < 0x1_0000_0000_0000_0000
    ensures IsNan(bits) <==>
            RegisterSets.And(bits, EXPONENT_MASK) == EXPONENT_MASK && RegisterSets.And(bits, FRACTION_MASK) != 0
  {
    MasksDivide(bits);
    var high, fraction := bits / 0x10_0000_0000_0000, bits % 0x10_0000_0000_0000;
    assert bits == 0x10_0000_0000_0000 * high + fraction;
    if high < 0x800 { assert high % 0x800 == high; } else { assert high % 0x800 == high - 0x800; }
  }

  /** The masks select the exponent field and the fraction field. */
  lemma MasksDivide(bits: nat)
    ensures RegisterSets.And(bits, EXPONENT_MASK) == bits / 0x10_0000_0000_0000 % 0x800 * 0x10_0000_0000_0000
    ensures RegisterSets.And(bits, FRACTION_MASK) == bits % 0x10_0000_0000_0000
  {
    Powers();
    hide RegisterSets.And, RegisterSets.Pow2;
    var high, fraction := bits / 0x10_0000_0000_0000, bits % 0x10_0000_0000_0000;
    RegisterSets.AndLow(high, fraction, 52);
    RegisterSets.AndHigh(high, fraction, 0x7ff, 52);
    RegisterSets.AndLow(high / 0x800, high % 0x800, 11);
  }

  lemma Powers()
    ensures RegisterSets.Pow2(11) == 0x800 && RegisterSets.Pow2(52) == 0x10_0000_0000_0000
  {
    assert RegisterSets.Pow2(11) == 0x800;
    assert RegisterSets.Pow2(13) == 0x2000;
    RegisterSets.Pow2Doubles(13);
    RegisterSets.Pow2Doubles(26);
  }

  predicate IsCanonicalNumber(bits: nat) {
    bits < 0x1_0000_0000_0000_0000 && (IsNan(bits) ==> bits == CANONICAL_NAN)
  }

  /** IEEE-754 bits with the one canonical NaN. */
  type NumberBits = bits: nat | IsCanonicalNumber(bits)

  type Int32 = n: int | -0x8000_0000 <= n < 0x8000_0000

  type EcmaString = seq<U16>

  predicate IsDigit(b: byte) {
    48 <= b < 58
  }

  predicate IsDecimal(digits: seq<byte>) {
    forall k :: 0 <= k < |digits| ==> IsDigit(digits[k])
  }

  /** Optional minus, then decimal digits without a redundant leading zero, and no negative zero. */
  predicate IsCanonicalBigInt(text: seq<byte>) {
    && text != []
    && var negative := text[0] == 45;
    && var digits := if negative then text[1..] else text;
    && digits != []
    && IsDecimal(digits)
    && (|digits| > 1 ==> digits[0] != 48)
    && !(negative && digits == [48])
  }

  function Zero(): (text: seq<byte>)
    ensures IsCanonicalBigInt(text)
  {
    var digits: seq<byte> := [48];
    assert forall k :: 0 <= k < |digits| ==> digits[k] == 48 && IsDigit(digits[k]);
    digits
  }

  type BigIntText = text: seq<byte> | IsCanonicalBigInt(text) witness Zero()

  /** Persistable values. */
  datatype Constant =
    | Number(bits: NumberBits)
    | Int32Value(int32: Int32)
    | Text(units: EcmaString)
    | Boolean(value: bool)
    | Null
    | Undefined
    | BigInt(digits: BigIntText)

  datatype Module = Module(constants: seq<Constant>, functions: seq<Function>, entry: FunctionId)
}
