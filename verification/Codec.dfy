/** Decode errors and limits, and bytes, integers and constants on the wire. Parsing is exactly the
    inverse of encoding: a parser accepts a value at an offset if and only if the value fits the limits
    and its encoding lies there.
 */
module Codec {
  import opened Base
  import opened Instructions
  import opened Bytecode
  import opened Wire

  const MAGIC: seq<byte> := [66, 77, 84, 66, 67, 0, 0, 1]
  const FORMAT_VERSION: byte := 5

  /** The bounded quantities of the format, named in errors. */
  datatype Quantity = ConstantCount | FunctionCount | CaptureCount | ParameterCount | RegisterCount
                    | InstructionCount | TotalInstructionCount | HandlerCount | StringUnitCount | BigIntByteLength
                    | AnyInteger

  datatype DecodeErrorKind =
    | InputLimitExceeded(max: nat, actual: nat)
    | EndOfInput
    | BadMagic(expected: byte, found: byte)
    | UnsupportedVersion(version: byte)
    | OverlongInteger
    | IntegerTooWide
    | InvalidConstantTag(tag: byte)
    | NonCanonicalNumber(bits: nat)
    | InvalidUtf8
    | InvalidBigInt
    | InvalidFunctionFlags(flags: byte)
    | InvalidOperator(family: Family, tag: byte)
    | InvalidOpcode(tag: byte)
    | LimitExceeded(quantity: Quantity, max: nat, actual: nat)
    | TrailingBytes(count: nat)

  datatype DecodeError = DecodeError(offset: nat, kind: DecodeErrorKind)

  type Parsed<+T> = Outcome<T, DecodeError>

  datatype DecodeLimits = DecodeLimits(
    maxBytes: nat,
    maxConstants: U32,
    maxFunctions: U32,
    maxCaptureCount: U32,
    maxParameterCount: U32,
    maxRegisterCount: U32,
    maxInstructionsPerFunction: U32,
    maxTotalInstructions: nat,
    maxHandlersPerFunction: U32,
    maxStringUnits: U32,
    maxBigIntBytes: U32)

  // ---- bytes and integers

  function ParseByte(bytes: seq<byte>, at: nat): Parsed<byte> {
    if at < |bytes| then Got(bytes[at], at + 1) else Bad(DecodeError(at, EndOfInput))
  }

  lemma ByteExact(bytes: seq<byte>, at: nat, b: byte, next: nat)
    ensures ParseByte(bytes, at) == Got(b, next) <==> Occurs(bytes, at, [b], next)
  {
    if Occurs(bytes, at, [b], next) {
      assert bytes[at] == bytes[at..next][0];
    }
  }

  function ParseSlice(bytes: seq<byte>, at: nat, n: nat): Parsed<seq<byte>> {
    if at + n <= |bytes| then Got(bytes[at..at + n], at + n) else Bad(DecodeError(at, EndOfInput))
  }

  lemma SliceExact(bytes: seq<byte>, at: nat, n: nat, s: seq<byte>, next: nat)
    ensures ParseSlice(bytes, at, n) == Got(s, next) <==> |s| == n && Occurs(bytes, at, s, next)
  {}

  /** End of input is reported where the missing byte belongs, the other errors at the integer's start. */
  function LebFailure(start: nat, error: LebError, stopped: nat): DecodeError {
    match error
    case UnexpectedEof => DecodeError(stopped, EndOfInput)
    case IntegerOverflow => DecodeError(start, IntegerTooWide)
    case NonCanonicalInteger => DecodeError(start, OverlongInteger)
  }

  function ParseInteger(bytes: seq<byte>, at: nat): Parsed<U32> {
    match ReadLeb(bytes, at)
    case LebOk(n, next) => Got(n, next)
    case LebErr(error, stopped) => Bad(LebFailure(at, error, stopped))
  }

  /** A quantity and the largest value allowed for it. */
  datatype Cap = Cap(quantity: Quantity, max: U32)

  const NO_CAP: Cap := Cap(AnyInteger, U32_LIMIT - 1)

  function ParseBounded(bytes: seq<byte>, at: nat, cap: Cap): Parsed<U32> {
    match ParseInteger(bytes, at)
    case Bad(e) => Bad(e)
    case Got(n, next) =>
      if n > cap.max then Bad(DecodeError(at, LimitExceeded(cap.quantity, cap.max, n))) else Got(n, next)
  }

  lemma BoundedExact(bytes: seq<byte>, at: nat, cap: Cap, n: nat, next: nat)
    ensures n <= cap.max ==> (ParseBounded(bytes, at, cap) == Got(n, next) <==> Occurs(bytes, at, Leb(n), next))
    ensures ParseBounded(bytes, at, cap).Got? ==>
              var r := ParseBounded(bytes, at, cap);
              r.value <= cap.max && Occurs(bytes, at, Leb(r.value), r.next)
  {
    LebExact(bytes, at, n, next);
  }

  /** Consecutive integers, each within its cap. */
  function ParseIntegers(bytes: seq<byte>, at: nat, caps: seq<Cap>): Parsed<seq<U32>>
    decreases |caps|
  {
    if caps == [] then Got([], at)
    else
      match ParseBounded(bytes, at, caps[0])
      case Bad(e) => Bad(e)
      case Got(n, middle) =>
        match ParseIntegers(bytes, middle, caps[1..])
        case Bad(e) => Bad(e)
        case Got(ns, next) => Got([n] + ns, next)
  }

  function EncodeIntegers(ns: seq<U32>): seq<byte> {
    if ns == [] then [] else Leb(ns[0]) + EncodeIntegers(ns[1..])
  }

  predicate WithinCaps(ns: seq<U32>, caps: seq<Cap>) {
    |ns| == |caps| && forall k :: 0 <= k < |ns| ==> ns[k] <= caps[k].max
  }

  lemma {:induction false} IntegersSound(bytes: seq<byte>, at: nat, caps: seq<Cap>)
    requires at <= |bytes| && ParseIntegers(bytes, at, caps).Got?
    ensures var r := ParseIntegers(bytes, at, caps);
      WithinCaps(r.value, caps) && Occurs(bytes, at, EncodeIntegers(r.value), r.next)
    decreases |caps|
  {
    if caps != [] {
      var r, first := ParseIntegers(bytes, at, caps), ParseBounded(bytes, at, caps[0]);
      BoundedExact(bytes, at, caps[0], first.value, first.next);
      IntegersSound(bytes, first.next, caps[1..]);
      assert r.value[1..] == ParseIntegers(bytes, first.next, caps[1..]).value;
      OccursConcat(bytes, at, Leb(first.value), EncodeIntegers(r.value[1..]), r.next);
    }
  }

  lemma {:induction false} IntegersComplete(bytes: seq<byte>, at: nat, caps: seq<Cap>, ns: seq<U32>, next: nat)
    requires WithinCaps(ns, caps) && Occurs(bytes, at, EncodeIntegers(ns), next)
    ensures ParseIntegers(bytes, at, caps) == Got(ns, next)
    decreases |caps|
  {
    hide Leb, Occurs;
    OccursBounds(bytes, at, EncodeIntegers(ns), next);
    if caps != [] {
      OccursConcat(bytes, at, Leb(ns[0]), EncodeIntegers(ns[1..]), next);
      BoundedExact(bytes, at, caps[0], ns[0], at + |Leb(ns[0])|);
      IntegersComplete(bytes, at + |Leb(ns[0])|, caps[1..], ns[1..], next);
      assert ns == [ns[0]] + ns[1..];
    }
  }

  /** `k` integers with no cap beyond 32 bits. */
  function Free(k: nat): (caps: seq<Cap>)
    ensures |caps| == k
    ensures forall ns: seq<U32> :: WithinCaps(ns, caps) <==> |ns| == k
  {
    seq(k, _ => NO_CAP)
  }

  // ---- constants

  function EncodeUnits(units: EcmaString): (e: seq<byte>)
    ensures |e| == 2 * |units|
  {
    if units == [] then [] else [units[0] % 256, units[0] / 256] + EncodeUnits(units[1..])
  }

  function DecodeUnits(e: seq<byte>): (units: EcmaString)
    requires |e| % 2 == 0
    ensures 2 * |units| == |e|
    ensures EncodeUnits(units) == e
  {
    if e == [] then [] else
      var low: nat, high: nat := e[0], e[1];
      var units: EcmaString := [low + 256 * high] + DecodeUnits(e[2..]);
      assert units[1..] == DecodeUnits(e[2..]);
      units
  }

  lemma {:induction false} DecodeInvertsEncodeUnits(units: EcmaString)
    ensures DecodeUnits(EncodeUnits(units)) == units
  {
    if units != [] {
      DecodeInvertsEncodeUnits(units[1..]);
      assert EncodeUnits(units)[2..] == EncodeUnits(units[1..]);
    }
  }

  /** Each unit takes two bytes, the low one first. */
  lemma {:induction false} UnitsAreLittleEndian(units: EcmaString, k: nat)
    requires k < |units|
    ensures var e := EncodeUnits(units);
      e[2 * k] == units[k] % 256 && e[2 * k + 1] == units[k] / 256
  {
    var rest := EncodeUnits(units[1..]);
    assert EncodeUnits(units) == [units[0] % 256, units[0] / 256] + rest;
    if |units| > 1 { UnitsAreLittleEndian(units[1..], if k == 0 then 0 else k - 1); }
  }

  /** Well-formed UTF-8 (table 3-7 of the Unicode Standard). */
  predicate IsUtf8(e: seq<byte>) {
    if e == [] then true
    else if e[0] < 0x80 then IsUtf8(e[1..])
    else if 0xC2 <= e[0] <= 0xDF then |e| >= 2 && Tail(e[1]) && IsUtf8(e[2..])
    else if 0xE0 <= e[0] <= 0xEF then
      && |e| >= 3 && Tail(e[1]) && Tail(e[2])
      && (e[0] == 0xE0 ==> e[1] >= 0xA0) && (e[0] == 0xED ==> e[1] < 0xA0)
      && IsUtf8(e[3..])
    else
      && 0xF0 <= e[0] <= 0xF4 && |e| >= 4 && Tail(e[1]) && Tail(e[2]) && Tail(e[3])
      && (e[0] == 0xF0 ==> e[1] >= 0x90) && (e[0] == 0xF4 ==> e[1] < 0x90)
      && IsUtf8(e[4..])
  }

  predicate Tail(b: byte) {
    0x80 <= b <= 0xBF
  }

  lemma {:induction false} AsciiIsUtf8(e: seq<byte>)
    requires forall k :: 0 <= k < |e| ==> e[k] < 0x80
    ensures IsUtf8(e)
  {
    if e != [] { AsciiIsUtf8(e[1..]); }
  }

  lemma CanonicalBigIntIsUtf8(text: seq<byte>)
    requires IsCanonicalBigInt(text)
    ensures IsUtf8(text)
  {
    var digits := if text[0] == 45 then text[1..] else text;
    forall k | 0 <= k < |text|
      ensures text[k] < 0x80
    {
      if text[0] == 45 && k > 0 { assert IsDigit(digits[k - 1]); }
      if text[0] != 45 { assert IsDigit(digits[k]); }
    }
    AsciiIsUtf8(text);
  }

  /** Two's complement. */
  function ToUnsigned32(n: Int32): U32 {
    if n < 0 then n + U32_LIMIT else n
  }

  function ToSigned32(n: U32): Int32 {
    if n < 0x8000_0000 then n else n - U32_LIMIT
  }

  /** The unsigned form is congruent to the value modulo 2^32, and the two forms invert each other. */
  lemma TwosComplement(n: Int32, u: U32)
    ensures (ToUnsigned32(n) - n) % U32_LIMIT == 0
    ensures ToSigned32(ToUnsigned32(n)) == n && ToUnsigned32(ToSigned32(u)) == u
  {}

  function ConstantTag(c: Constant): byte {
    match c
    case Number(_) => 0
    case Int32Value(_) => 1
    case Text(_) => 2
    case Boolean(value) => if value then 4 else 3
    case Null => 5
    case Undefined => 6
    case BigInt(_) => 7
  }

  /** What follows the tag byte of a constant. */
  function Payload(c: Constant): seq<byte> {
    match c
    case Number(bits) => LittleEndian(bits, 8)
    case Int32Value(n) => LittleEndian(ToUnsigned32(n), 4)
    case Text(units) => LebLength(|units|) + EncodeUnits(units)
    case BigInt(digits) => LebLength(|digits|) + digits
    case _ => []
  }

  function EncodeConstant(c: Constant): (e: seq<byte>)
    ensures |e| >= 1
  {
    [ConstantTag(c)] + Payload(c)
  }

  predicate ConstantFits(c: Constant, limits: DecodeLimits) {
    && (c.Text? ==> |c.units| <= limits.maxStringUnits)
    && (c.BigInt? ==> |c.digits| <= limits.maxBigIntBytes)
  }

  /** A count, then that many bytes, or twice as many for 16-bit units. */
  function ParseCounted(bytes: seq<byte>, at: nat, cap: Cap, wide: bool): Parsed<seq<byte>> {
    match ParseBounded(bytes, at, cap)
    case Bad(e) => Bad(e)
    case Got(n, middle) => ParseSlice(bytes, middle, if wide then n + n else n)
  }

  lemma CountedSound(bytes: seq<byte>, at: nat, cap: Cap, wide: bool) returns (n: nat)
    requires ParseCounted(bytes, at, cap, wide).Got?
    ensures
      var r := ParseCounted(bytes, at, cap, wide);
      && n <= cap.max && |r.value| == (if wide then n + n else n)
      && Occurs(bytes, at, Leb(n) + r.value, r.next)
  {
    var count := ParseBounded(bytes, at, cap);
    var r := ParseCounted(bytes, at, cap, wide);
    n := count.value;
    BoundedExact(bytes, at, cap, n, count.next);
    OccursConcat(bytes, at, Leb(n), r.value, r.next);
  }

  lemma CountedComplete(bytes: seq<byte>, at: nat, cap: Cap, wide: bool, n: nat, s: seq<byte>, next: nat)
    requires n <= cap.max && |s| == (if wide then n + n else n)
    requires Occurs(bytes, at, Leb(n) + s, next)
    ensures ParseCounted(bytes, at, cap, wide) == Got(s, next)
  {
    OccursConcat(bytes, at, Leb(n), s, next);
    BoundedExact(bytes, at, cap, n, at + |Leb(n)|);
    SliceExact(bytes, at + |Leb(n)|, |s|, s, next);
  }

  function ParseNumber(bytes: seq<byte>, at: nat): Parsed<Constant> {
    match ParseSlice(bytes, at, 8)
    case Bad(e) => Bad(e)
    case Got(s, next) =>
      var bits := FromLittleEndian(s);
      if IsCanonicalNumber(bits) then Got(Number(bits), next) else Bad(DecodeError(at, NonCanonicalNumber(bits)))
  }

  function ParseInt32(bytes: seq<byte>, at: nat): Parsed<Constant> {
    match ParseSlice(bytes, at, 4)
    case Bad(e) => Bad(e)
    case Got(s, next) =>
      Pow256Values();
      LittleEndianInvertsFrom(s);
      Got(Int32Value(ToSigned32(FromLittleEndian(s))), next)
  }

  function ParseString(bytes: seq<byte>, at: nat, limits: DecodeLimits): Parsed<Constant> {
    match ParseCounted(bytes, at, Cap(StringUnitCount, limits.maxStringUnits), true)
    case Bad(e) => Bad(e)
    case Got(s, next) => Got(Text(DecodeUnits(s)), next)
  }

  function ParseBigInt(bytes: seq<byte>, at: nat, limits: DecodeLimits): Parsed<Constant> {
    match ParseCounted(bytes, at, Cap(BigIntByteLength, limits.maxBigIntBytes), false)
    case Bad(e) => Bad(e)
    case Got(s, next) =>
      if !IsUtf8(s) then Bad(DecodeError(next - |s|, InvalidUtf8))
      else if !IsCanonicalBigInt(s) then Bad(DecodeError(at, InvalidBigInt))
      else Got(BigInt(s), next)
  }

  function ParseConstant(bytes: seq<byte>, at: nat, limits: DecodeLimits): Parsed<Constant> {
    match ParseByte(bytes, at)
    case Bad(e) => Bad(e)
    case Got(tag, middle) =>
      match tag
      case 0 => ParseNumber(bytes, middle)
      case 1 => ParseInt32(bytes, middle)
      case 2 => ParseString(bytes, middle, limits)
      case 3 => Got(Boolean(false), middle)
      case 4 => Got(Boolean(true), middle)
      case 5 => Got(Null, middle)
      case 6 => Got(Undefined, middle)
      case 7 => ParseBigInt(bytes, middle, limits)
      case _ => Bad(DecodeError(at, InvalidConstantTag(tag)))
  }

  lemma Pow256Values()
    ensures Pow256(4) == U32_LIMIT && Pow256(8) == 0x1_0000_0000_0000_0000
  {
    assert Pow256(2) == 0x1_0000;
    assert Pow256(4) == 0x1_0000 * Pow256(2);
    assert Pow256(6) == 0x1_0000 * Pow256(4);
    assert Pow256(8) == 0x1_0000 * Pow256(6);
  }

  lemma NumberSound(bytes: seq<byte>, at: nat)
    requires ParseNumber(bytes, at).Got?
    ensures var r := ParseNumber(bytes, at); r.value.Number? && Occurs(bytes, at, LittleEndian(r.value.bits, 8), r.next)
  {
    LittleEndianInvertsFrom(ParseSlice(bytes, at, 8).value);
  }

  lemma Int32Sound(bytes: seq<byte>, at: nat)
    requires ParseInt32(bytes, at).Got?
    ensures var r := ParseInt32(bytes, at);
      r.value.Int32Value? && Occurs(bytes, at, LittleEndian(ToUnsigned32(r.value.int32), 4), r.next)
  {
    Pow256Values();
    LittleEndianInvertsFrom(ParseSlice(bytes, at, 4).value);
  }

  lemma StringSound(bytes: seq<byte>, at: nat, limits: DecodeLimits)
    requires ParseString(bytes, at, limits).Got?
    ensures var r := ParseString(bytes, at, limits);
      && r.value.Text? && |r.value.units| <= limits.maxStringUnits
      && Occurs(bytes, at, LebLength(|r.value.units|) + EncodeUnits(r.value.units), r.next)
  {
    hide Occurs, Leb, ParseCounted;
    var n := CountedSound(bytes, at, Cap(StringUnitCount, limits.maxStringUnits), true);
  }

  lemma BigIntSound(bytes: seq<byte>, at: nat, limits: DecodeLimits)
    requires ParseBigInt(bytes, at, limits).Got?
    ensures var r := ParseBigInt(bytes, at, limits);
      && r.value.BigInt? && |r.value.digits| <= limits.maxBigIntBytes
      && Occurs(bytes, at, LebLength(|r.value.digits|) + r.value.digits, r.next)
  {
    hide Occurs, Leb, ParseCounted, IsUtf8, IsCanonicalBigInt;
    var n := CountedSound(bytes, at, Cap(BigIntByteLength, limits.maxBigIntBytes), false);
  }

  lemma PayloadSound(bytes: seq<byte>, at: nat, limits: DecodeLimits)
    requires ParseConstant(bytes, at, limits).Got?
    ensures var r := ParseConstant(bytes, at, limits);
      && ConstantFits(r.value, limits)
      && ConstantTag(r.value) == bytes[at]
      && Occurs(bytes, at + 1, Payload(r.value), r.next)
  {
    hide ParseNumber, ParseInt32, ParseString, ParseBigInt, EncodeUnits, LittleEndian, IsCanonicalBigInt;
    match bytes[at]
    case 0 => NumberSound(bytes, at + 1);
    case 1 => Int32Sound(bytes, at + 1);
    case 2 => StringSound(bytes, at + 1, limits);
    case 7 => BigIntSound(bytes, at + 1, limits);
    case _ =>
  }

  lemma ConstantSound(bytes: seq<byte>, at: nat, limits: DecodeLimits)
    requires ParseConstant(bytes, at, limits).Got?
    ensures var r := ParseConstant(bytes, at, limits);
      ConstantFits(r.value, limits) && Occurs(bytes, at, EncodeConstant(r.value), r.next)
  {
    var r := ParseConstant(bytes, at, limits);
    PayloadSound(bytes, at, limits);
    ByteExact(bytes, at, bytes[at], at + 1);
    OccursConcat(bytes, at, [bytes[at]], Payload(r.value), r.next);
  }

  lemma NumberComplete(bytes: seq<byte>, at: nat, bits: NumberBits, next: nat)
    requires Occurs(bytes, at, LittleEndian(bits, 8), next)
    ensures ParseNumber(bytes, at) == Got(Number(bits), next)
  {
    Pow256Values();
    assert IsCanonicalNumber(bits);
    FromInvertsLittleEndian(bits, 8);
  }

  lemma Int32Complete(bytes: seq<byte>, at: nat, n: Int32, next: nat)
    requires Occurs(bytes, at, LittleEndian(ToUnsigned32(n), 4), next)
    ensures ParseInt32(bytes, at) == Got(Int32Value(n), next)
  {
    Pow256Values();
    FromInvertsLittleEndian(ToUnsigned32(n), 4);
  }

  lemma PayloadComplete(bytes: seq<byte>, at: nat, limits: DecodeLimits, c: Constant, next: nat)
    requires ConstantFits(c, limits) && Occurs(bytes, at, Payload(c), next)
    ensures c.Number? ==> ParseNumber(bytes, at) == Got(c, next)
    ensures c.Int32Value? ==> ParseInt32(bytes, at) == Got(c, next)
    ensures c.Text? ==> ParseString(bytes, at, limits) == Got(c, next)
    ensures c.BigInt? ==> ParseBigInt(bytes, at, limits) == Got(c, next)
  {
    hide Occurs, ParseNumber, ParseInt32, EncodeUnits, LittleEndian, IsCanonicalBigInt;
    match c
    case Number(bits) => NumberComplete(bytes, at, bits, next);
    case Int32Value(n) => Int32Complete(bytes, at, n, next);
    case Text(units) =>
      DecodeInvertsEncodeUnits(units);
      CountedComplete(bytes, at, Cap(StringUnitCount, limits.maxStringUnits), true, |units|, EncodeUnits(units), next);
    case BigInt(digits) =>
      CanonicalBigIntIsUtf8(digits);
      CountedComplete(bytes, at, Cap(BigIntByteLength, limits.maxBigIntBytes), false, |digits|, digits, next);
    case _ =>
  }

  lemma ConstantComplete(bytes: seq<byte>, at: nat, limits: DecodeLimits, c: Constant, next: nat)
    requires ConstantFits(c, limits) && Occurs(bytes, at, EncodeConstant(c), next)
    ensures ParseConstant(bytes, at, limits) == Got(c, next)
  {
    OccursConcat(bytes, at, [ConstantTag(c)], Payload(c), next);
    ByteExact(bytes, at, ConstantTag(c), at + 1);
    PayloadComplete(bytes, at + 1, limits, c, next);
  }
}
