/** The module container: preamble, constant pool, function table; and what it means that decoding is
    exactly the inverse of encoding.
 */
module ModuleWire {
  import opened Base
  import opened Instructions
  import opened Bytecode
  import opened Wire
  import opened Codec
  import opened ModuleCodec

  // ---- constant pool

  function EncodeConstants(cs: seq<Constant>): (e: seq<byte>)
    ensures |e| >= |cs|
  {
    if cs == [] then [] else EncodeConstant(cs[0]) + EncodeConstants(cs[1..])
  }

  function ParseConstants(bytes: seq<byte>, at: nat, n: nat, limits: DecodeLimits): Parsed<seq<Constant>>
    decreases n
  {
    if n == 0 then Got([], at)
    else
      match ParseConstant(bytes, at, limits)
      case Bad(e) => Bad(e)
      case Got(c, middle) =>
        match ParseConstants(bytes, middle, n - 1, limits)
        case Bad(e) => Bad(e)
        case Got(rest, next) => Got([c] + rest, next)
  }

  predicate ConstantsFit(cs: seq<Constant>, limits: DecodeLimits) {
    forall k :: 0 <= k < |cs| ==> ConstantFits(cs[k], limits)
  }

  lemma {:induction false} ConstantsSound(bytes: seq<byte>, at: nat, n: nat, limits: DecodeLimits)
    requires at <= |bytes| && ParseConstants(bytes, at, n, limits).Got?
    ensures var r := ParseConstants(bytes, at, n, limits);
      |r.value| == n && ConstantsFit(r.value, limits) && Occurs(bytes, at, EncodeConstants(r.value), r.next)
    decreases n
  {
    hide ParseConstant, EncodeConstant, ConstantFits;
    if n > 0 {
      var r, first := ParseConstants(bytes, at, n, limits), ParseConstant(bytes, at, limits);
      ConstantSound(bytes, at, limits);
      ConstantsSound(bytes, first.next, n - 1, limits);
      assert r.value[1..] == ParseConstants(bytes, first.next, n - 1, limits).value;
      OccursConcat(bytes, at, EncodeConstant(first.value), EncodeConstants(r.value[1..]), r.next);
    }
  }

  lemma {:induction false} ConstantsComplete(bytes: seq<byte>, at: nat, limits: DecodeLimits, cs: seq<Constant>,
                                             next: nat)
    requires ConstantsFit(cs, limits) && Occurs(bytes, at, EncodeConstants(cs), next)
    ensures ParseConstants(bytes, at, |cs|, limits) == Got(cs, next)
    decreases |cs|
  {
    hide ParseConstant, EncodeConstant, ConstantFits;
    if cs != [] {
      var middle := at + |EncodeConstant(cs[0])|;
      OccursConcat(bytes, at, EncodeConstant(cs[0]), EncodeConstants(cs[1..]), next);
      ConstantComplete(bytes, at, limits, cs[0], middle);
      ConstantsComplete(bytes, middle, limits, cs[1..], next);
      assert cs == [cs[0]] + cs[1..];
    }
  }

  function EncodeConstantBlock(cs: seq<Constant>): seq<byte> {
    LebLength(|cs|) + EncodeConstants(cs)
  }

  function ConstantCap(limits: DecodeLimits): Cap {
    Cap(ConstantCount, limits.maxConstants)
  }

  function ParseConstantBlock(bytes: seq<byte>, at: nat, limits: DecodeLimits): Parsed<seq<Constant>> {
    match ParseBounded(bytes, at, ConstantCap(limits))
    case Bad(e) => Bad(e)
    case Got(n, middle) => ParseConstants(bytes, middle, n, limits)
  }

  lemma ConstantBlockSound(bytes: seq<byte>, at: nat, limits: DecodeLimits)
    requires ParseConstantBlock(bytes, at, limits).Got?
    ensures var r := ParseConstantBlock(bytes, at, limits);
      && |r.value| <= limits.maxConstants && ConstantsFit(r.value, limits)
      && Occurs(bytes, at, EncodeConstantBlock(r.value), r.next)
  {
    hide ParseBounded, ParseConstants, EncodeConstants, Leb, ConstantsFit;
    var n, r := ParseBounded(bytes, at, ConstantCap(limits)), ParseConstantBlock(bytes, at, limits);
    BoundedExact(bytes, at, ConstantCap(limits), n.value, n.next);
    ConstantsSound(bytes, n.next, n.value, limits);
    OccursConcat(bytes, at, Leb(n.value), EncodeConstants(r.value), r.next);
  }

  lemma ConstantBlockComplete(bytes: seq<byte>, at: nat, limits: DecodeLimits, cs: seq<Constant>, next: nat)
    requires |cs| <= limits.maxConstants && ConstantsFit(cs, limits) && Occurs(bytes, at, EncodeConstantBlock(cs), next)
    ensures ParseConstantBlock(bytes, at, limits) == Got(cs, next)
  {
    hide ParseBounded, ParseConstants, EncodeConstants, Leb, ConstantsFit;
    var n := Leb(|cs|);
    OccursConcat(bytes, at, n, EncodeConstants(cs), next);
    BoundedExact(bytes, at, ConstantCap(limits), |cs|, at + |n|);
    ConstantsComplete(bytes, at + |n|, limits, cs, next);
  }

  // ---- function table

  function EncodeFunctions(fs: seq<Function>): (e: seq<byte>)
    ensures |e| >= |fs|
  {
    if fs == [] then []
    else
      assert |EncodeFunction(fs[0])| >= 1;
      EncodeFunction(fs[0]) + EncodeFunctions(fs[1..])
  }

  function ParseFunctions(bytes: seq<byte>, at: nat, n: nat, total: nat, limits: DecodeLimits): Parsed<seq<Function>>
    requires at <= |bytes|
    decreases n
  {
    if n == 0 then Got([], at)
    else
      match ParseFunction(bytes, at, total, limits)
      case Bad(e) => Bad(e)
      case Got(f, middle) =>
        FunctionSound(bytes, at, total, limits);
        match ParseFunctions(bytes, middle, n - 1, total + |f.code|, limits)
        case Bad(e) => Bad(e)
        case Got(rest, next) => Got([f] + rest, next)
  }

  /** Each function within the limits, the instruction total running. */
  predicate FunctionsFit(fs: seq<Function>, total: nat, limits: DecodeLimits)
    decreases |fs|
  {
    fs != [] ==> FunctionFits(fs[0], total, limits) && FunctionsFit(fs[1..], total + |fs[0].code|, limits)
  }

  lemma {:induction false} FunctionsSound(bytes: seq<byte>, at: nat, n: nat, total: nat, limits: DecodeLimits)
    requires at <= |bytes| && ParseFunctions(bytes, at, n, total, limits).Got?
    ensures var r := ParseFunctions(bytes, at, n, total, limits);
      |r.value| == n && FunctionsFit(r.value, total, limits) && Occurs(bytes, at, EncodeFunctions(r.value), r.next)
    decreases n
  {
    hide ParseFunction, EncodeFunction, FunctionFits;
    if n > 0 {
      var r, first := ParseFunctions(bytes, at, n, total, limits), ParseFunction(bytes, at, total, limits);
      FunctionSound(bytes, at, total, limits);
      FunctionsSound(bytes, first.next, n - 1, total + |first.value.code|, limits);
      assert r.value[1..] == ParseFunctions(bytes, first.next, n - 1, total + |first.value.code|, limits).value;
      OccursConcat(bytes, at, EncodeFunction(first.value), EncodeFunctions(r.value[1..]), r.next);
    }
  }

  lemma {:induction false} FunctionsComplete(bytes: seq<byte>, at: nat, total: nat, limits: DecodeLimits,
                                             fs: seq<Function>, next: nat)
    requires at <= |bytes| && FunctionsFit(fs, total, limits) && Occurs(bytes, at, EncodeFunctions(fs), next)
    ensures ParseFunctions(bytes, at, |fs|, total, limits) == Got(fs, next)
    decreases |fs|
  {
    hide ParseFunction, EncodeFunction, FunctionFits;
    if fs != [] {
      var middle := at + |EncodeFunction(fs[0])|;
      OccursConcat(bytes, at, EncodeFunction(fs[0]), EncodeFunctions(fs[1..]), next);
      FunctionComplete(bytes, at, total, limits, fs[0], middle);
      FunctionsComplete(bytes, middle, total + |fs[0].code|, limits, fs[1..], next);
      assert fs == [fs[0]] + fs[1..];
    }
  }

  /** Function count, entry, functions. */
  function EncodeFunctionBlock(fs: seq<Function>, entry: FunctionId): seq<byte> {
    LebLength(|fs|) + (Leb(entry) + EncodeFunctions(fs))
  }

  function FunctionCap(limits: DecodeLimits): Cap {
    Cap(FunctionCount, limits.maxFunctions)
  }

  function ParseFunctionBlock(bytes: seq<byte>, at: nat, limits: DecodeLimits): Parsed<(FunctionId, seq<Function>)> {
    match ParseBounded(bytes, at, FunctionCap(limits))
    case Bad(e) => Bad(e)
    case Got(n, a) =>
      match ParseBounded(bytes, a, NO_CAP)
      case Bad(e) => Bad(e)
      case Got(entry, b) =>
        BoundedExact(bytes, a, NO_CAP, entry, b);
        match ParseFunctions(bytes, b, n, 0, limits)
        case Bad(e) => Bad(e)
        case Got(fs, next) => Got((entry, fs), next)
  }

  lemma FunctionBlockSound(bytes: seq<byte>, at: nat, limits: DecodeLimits)
    requires ParseFunctionBlock(bytes, at, limits).Got?
    ensures var r := ParseFunctionBlock(bytes, at, limits);
      && |r.value.1| <= limits.maxFunctions && FunctionsFit(r.value.1, 0, limits)
      && Occurs(bytes, at, EncodeFunctionBlock(r.value.1, r.value.0), r.next)
  {
    hide ParseBounded, ParseFunctions, EncodeFunctions, Leb, FunctionsFit;
    var n, r := ParseBounded(bytes, at, FunctionCap(limits)), ParseFunctionBlock(bytes, at, limits);
    BoundedExact(bytes, at, FunctionCap(limits), n.value, n.next);
    var entry := ParseBounded(bytes, n.next, NO_CAP);
    BoundedExact(bytes, n.next, NO_CAP, entry.value, entry.next);
    FunctionsSound(bytes, entry.next, n.value, 0, limits);
    OccursConcat(bytes, n.next, Leb(entry.value), EncodeFunctions(r.value.1), r.next);
    OccursConcat(bytes, at, Leb(n.value), Leb(entry.value) + EncodeFunctions(r.value.1), r.next);
  }

  lemma FunctionBlockComplete(bytes: seq<byte>, at: nat, limits: DecodeLimits, fs: seq<Function>, entry: FunctionId,
                              next: nat)
    requires |fs| <= limits.maxFunctions && FunctionsFit(fs, 0, limits)
    requires Occurs(bytes, at, EncodeFunctionBlock(fs, entry), next)
    ensures ParseFunctionBlock(bytes, at, limits) == Got((entry, fs), next)
  {
    hide ParseBounded, ParseFunctions, EncodeFunctions, Leb, FunctionsFit;
    var a := at + |Leb(|fs|)|;
    var b := a + |Leb(entry)|;
    OccursConcat(bytes, at, Leb(|fs|), Leb(entry) + EncodeFunctions(fs), next);
    OccursConcat(bytes, a, Leb(entry), EncodeFunctions(fs), next);
    BoundedExact(bytes, at, FunctionCap(limits), |fs|, a);
    BoundedExact(bytes, a, NO_CAP, entry, b);
    FunctionsComplete(bytes, b, 0, limits, fs, next);
  }

  // ---- preamble

  /** The expected magic bytes, compared one at a time. */
  function ParseMagic(bytes: seq<byte>, at: nat, expected: seq<byte>): Parsed<()>
    decreases |expected|
  {
    if expected == [] then Got((), at)
    else
      match ParseByte(bytes, at)
      case Bad(e) => Bad(e)
      case Got(b, next) =>
        if b != expected[0] then Bad(DecodeError(at, BadMagic(expected[0], b)))
        else ParseMagic(bytes, next, expected[1..])
  }

  lemma {:induction false} MagicExact(bytes: seq<byte>, at: nat, expected: seq<byte>, next: nat)
    requires at <= |bytes|
    ensures ParseMagic(bytes, at, expected) == Got((), next) <==> Occurs(bytes, at, expected, next)
    decreases |expected|
  {
    if expected != [] {
      assert expected == [expected[0]] + expected[1..];
      OccursConcat(bytes, at, [expected[0]], expected[1..], next);
      ByteExact(bytes, at, expected[0], at + 1);
      if at < |bytes| { MagicExact(bytes, at + 1, expected[1..], next); }
    }
  }

  function ParsePreamble(bytes: seq<byte>): Parsed<()> {
    match ParseMagic(bytes, 0, MAGIC)
    case Bad(e) => Bad(e)
    case Got(_, at) =>
      match ParseByte(bytes, at)
      case Bad(e) => Bad(e)
      case Got(version, next) =>
        if version != FORMAT_VERSION then Bad(DecodeError(at, UnsupportedVersion(version))) else Got((), next)
  }

  lemma PreambleExact(bytes: seq<byte>, next: nat)
    ensures ParsePreamble(bytes) == Got((), next) <==> Occurs(bytes, 0, MAGIC + [FORMAT_VERSION], next)
  {
    hide ParseMagic;
    OccursConcat(bytes, 0, MAGIC, [FORMAT_VERSION], next);
    MagicExact(bytes, 0, MAGIC, |MAGIC|);
    ByteExact(bytes, |MAGIC|, FORMAT_VERSION, next);
    var magic := ParseMagic(bytes, 0, MAGIC);
    if magic.Got? {
      assert magic.value == ();
      MagicExact(bytes, 0, MAGIC, magic.next);
      if magic.next < |bytes| { ByteExact(bytes, magic.next, bytes[magic.next], magic.next + 1); }
    }
  }

  // ---- the module

  function EncodeModule(m: Module): seq<byte> {
    (MAGIC + [FORMAT_VERSION]) + (EncodeConstantBlock(m.constants) + EncodeFunctionBlock(m.functions, m.entry))
  }

  /** Within every decode limit. */
  predicate ModuleFits(m: Module, limits: DecodeLimits) {
    && |m.constants| <= limits.maxConstants && ConstantsFit(m.constants, limits)
    && |m.functions| <= limits.maxFunctions && FunctionsFit(m.functions, 0, limits)
  }

  function ParseModule(bytes: seq<byte>, limits: DecodeLimits): Parsed<Module> {
    match ParsePreamble(bytes)
    case Bad(e) => Bad(e)
    case Got(_, a) =>
      match ParseConstantBlock(bytes, a, limits)
      case Bad(e) => Bad(e)
      case Got(constants, b) =>
        match ParseFunctionBlock(bytes, b, limits)
        case Bad(e) => Bad(e)
        case Got((entry, functions), next) => Got(Module(constants, functions, entry), next)
  }

  lemma ModuleSound(bytes: seq<byte>, limits: DecodeLimits)
    requires ParseModule(bytes, limits).Got?
    ensures var r := ParseModule(bytes, limits);
      ModuleFits(r.value, limits) && Occurs(bytes, 0, EncodeModule(r.value), r.next)
  {
    hide ParsePreamble, ParseConstantBlock, EncodeConstantBlock, ParseFunctionBlock, EncodeFunctionBlock, ConstantsFit,
         FunctionsFit;
    var r := ParseModule(bytes, limits);
    var m := r.value;
    var preamble := ParsePreamble(bytes);
    assert preamble.value == ();
    PreambleExact(bytes, preamble.next);
    ConstantBlockSound(bytes, preamble.next, limits);
    var constants := ParseConstantBlock(bytes, preamble.next, limits);
    FunctionBlockSound(bytes, constants.next, limits);
    OccursConcat(bytes, preamble.next, EncodeConstantBlock(m.constants), EncodeFunctionBlock(m.functions, m.entry),
                 r.next);
    OccursConcat(bytes, 0, MAGIC + [FORMAT_VERSION],
                 EncodeConstantBlock(m.constants) + EncodeFunctionBlock(m.functions, m.entry), r.next);
  }

  lemma ModuleComplete(bytes: seq<byte>, limits: DecodeLimits, m: Module, next: nat)
    requires ModuleFits(m, limits) && Occurs(bytes, 0, EncodeModule(m), next)
    ensures ParseModule(bytes, limits) == Got(m, next)
  {
    hide ParsePreamble, ParseConstantBlock, EncodeConstantBlock, ParseFunctionBlock, EncodeFunctionBlock, ConstantsFit,
         FunctionsFit;
    var constants, functions := EncodeConstantBlock(m.constants), EncodeFunctionBlock(m.functions, m.entry);
    var a := |MAGIC + [FORMAT_VERSION]|;
    OccursConcat(bytes, 0, MAGIC + [FORMAT_VERSION], constants + functions, next);
    OccursConcat(bytes, a, constants, functions, next);
    PreambleExact(bytes, a);
    ConstantBlockComplete(bytes, a, limits, m.constants, a + |constants|);
    FunctionBlockComplete(bytes, a + |constants|, limits, m.functions, m.entry, next);
  }

  /** The whole decoder: input ceiling, module, nothing after it. */
  function Decode(bytes: seq<byte>, limits: DecodeLimits): Result<Module, DecodeError> {
    if |bytes| > limits.maxBytes then Err(DecodeError(0, InputLimitExceeded(limits.maxBytes, |bytes|)))
    else
      match ParseModule(bytes, limits)
      case Bad(e) => Err(e)
      case Got(m, next) =>
        if next != |bytes| then Err(DecodeError(next, TrailingBytes(if next <= |bytes| then |bytes| - next else 0)))
        else Ok(m)
  }

  /** Exactness: a byte string decodes to a module if and only if it is that module's encoding and the
      module is within the limits. */
  lemma DecodeExact(bytes: seq<byte>, limits: DecodeLimits, m: Module)
    ensures Decode(bytes, limits) == Ok(m) <==>
            bytes == EncodeModule(m) && ModuleFits(m, limits) && |bytes| <= limits.maxBytes
  {
    hide ParseModule, EncodeModule, ModuleFits;
    if Decode(bytes, limits) == Ok(m) {
      ModuleSound(bytes, limits);
      assert bytes[0..|bytes|] == bytes;
    }
    if bytes == EncodeModule(m) && ModuleFits(m, limits) && |bytes| <= limits.maxBytes {
      assert bytes[0..|bytes|] == bytes;
      ModuleComplete(bytes, limits, m, |bytes|);
    }
  }
}
