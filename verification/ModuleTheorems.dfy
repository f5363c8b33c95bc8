/** Consequences of decoder exactness: round trips, canonical wire, prefix-freeness, conservation. */
module ModuleTheorems {
  import opened Base
  import opened Bytecode
  import opened Wire
  import opened Codec
  import opened ModuleCodec
  import opened ModuleWire
  import opened Verifier

  // ---- canonical wire

  /** Two accepted byte strings that decode to the same module are the same string, whatever the limits. */
  lemma AcceptedBytesAreCanonical(a: seq<byte>, b: seq<byte>, la: DecodeLimits, lb: DecodeLimits)
    requires Decode(a, la).Ok? && Decode(b, lb).Ok? && Decode(a, la).value == Decode(b, lb).value
    ensures a == b
  {
    hide Decode;
    DecodeExact(a, la, Decode(a, la).value);
    DecodeExact(b, lb, Decode(b, lb).value);
  }

  function MaxOf(a: U32, b: U32): U32 {
    if a < b then b else a
  }

  /** Limits that allow whatever either allows. */
  function Wider(a: DecodeLimits, b: DecodeLimits): DecodeLimits {
    DecodeLimits(
      a.maxBytes + b.maxBytes,
      MaxOf(a.maxConstants, b.maxConstants),
      MaxOf(a.maxFunctions, b.maxFunctions),
      MaxOf(a.maxCaptureCount, b.maxCaptureCount),
      MaxOf(a.maxParameterCount, b.maxParameterCount),
      MaxOf(a.maxRegisterCount, b.maxRegisterCount),
      MaxOf(a.maxInstructionsPerFunction, b.maxInstructionsPerFunction),
      a.maxTotalInstructions + b.maxTotalInstructions,
      MaxOf(a.maxHandlersPerFunction, b.maxHandlersPerFunction),
      MaxOf(a.maxStringUnits, b.maxStringUnits),
      MaxOf(a.maxBigIntBytes, b.maxBigIntBytes))
  }

  /** Every limit of `b` is at least that of `a`. */
  predicate Allows(a: DecodeLimits, b: DecodeLimits) {
    && a.maxBytes <= b.maxBytes
    && a.maxConstants <= b.maxConstants
    && a.maxFunctions <= b.maxFunctions
    && a.maxCaptureCount <= b.maxCaptureCount
    && a.maxParameterCount <= b.maxParameterCount
    && a.maxRegisterCount <= b.maxRegisterCount
    && a.maxInstructionsPerFunction <= b.maxInstructionsPerFunction
    && a.maxTotalInstructions <= b.maxTotalInstructions
    && a.maxHandlersPerFunction <= b.maxHandlersPerFunction
    && a.maxStringUnits <= b.maxStringUnits
    && a.maxBigIntBytes <= b.maxBigIntBytes
  }

  lemma {:induction false} FunctionsFitWider(fs: seq<Function>, total: nat, a: DecodeLimits, b: DecodeLimits)
    requires Allows(a, b) && FunctionsFit(fs, total, a)
    ensures FunctionsFit(fs, total, b)
    decreases |fs|
  {
    if fs != [] { FunctionsFitWider(fs[1..], total + |fs[0].code|, a, b); }
  }

  /** Raising limits never rejects a module. */
  lemma FitsWider(m: Module, a: DecodeLimits, b: DecodeLimits)
    requires Allows(a, b) && ModuleFits(m, a)
    ensures ModuleFits(m, b)
  {
    FunctionsFitWider(m.functions, 0, a, b);
    forall k | 0 <= k < |m.constants|
      ensures ConstantFits(m.constants[k], b)
    {
      assert ConstantFits(m.constants[k], a);
    }
  }

  /** No accepted byte string is a proper prefix of another, even under different limits: every
      truncation and every extension of an accepted string is rejected. */
  lemma AcceptedBytesArePrefixFree(a: seq<byte>, b: seq<byte>, la: DecodeLimits, lb: DecodeLimits)
    requires Decode(a, la).Ok? && Decode(b, lb).Ok? && a <= b
    ensures a == b
  {
    hide Decode, ParseModule, EncodeModule, ModuleFits;
    var m, n := Decode(a, la).value, Decode(b, lb).value;
    DecodeExact(a, la, m);
    DecodeExact(b, lb, n);
    var limits := Wider(la, lb);
    FitsWider(m, la, limits);
    FitsWider(n, lb, limits);
    assert b[0..|a|] == a && b[0..|b|] == b;
    ModuleComplete(b, limits, m, |a|);
    ModuleComplete(b, limits, n, |b|);
  }

  // ---- round trip of verified modules

  const DEFAULT_LIMITS: DecodeLimits := DecodeLimits(
    0x100_0000, MAX_CONSTANTS, MAX_FUNCTIONS, MAX_REGISTERS, MAX_REGISTERS, MAX_REGISTERS, MAX_INSTRUCTIONS,
    0x100_0000, MAX_HANDLERS, 0x10_0000, 0x10_0000)

  function TotalInstructions(fs: seq<Function>): nat {
    if fs == [] then 0 else |fs[0].code| + TotalInstructions(fs[1..])
  }

  /** The running instruction total only matters at the end. */
  lemma {:induction false} FitsByTotal(fs: seq<Function>, total: nat, limits: DecodeLimits)
    requires forall k :: 0 <= k < |fs| ==> FunctionFits(fs[k], 0, limits.(maxTotalInstructions := |fs[k].code|))
    ensures FunctionsFit(fs, total, limits) <==>
            fs == [] || total + TotalInstructions(fs) <= limits.maxTotalInstructions
    decreases |fs|
  {
    if fs != [] {
      FitsByTotal(fs[1..], total + |fs[0].code|, limits);
    }
  }

  /** A verified module survives encoding and decoding under the default limits exactly when its texts
      and its encoding are within them. The structural limits already hold, and the limit on the total
      number of instructions never decides: every instruction takes a byte, and there are no more bytes. */
  lemma VerifiedRoundTrip(m: Module)
    requires ModuleOk(m)
    ensures Decode(EncodeModule(m), DEFAULT_LIMITS) == Ok(m) <==>
            ConstantsFit(m.constants, DEFAULT_LIMITS) && |EncodeModule(m)| <= DEFAULT_LIMITS.maxBytes
  {
    hide Decode, EncodeModule, ConstantsFit;
    DecodeExact(EncodeModule(m), DEFAULT_LIMITS, m);
    forall k | 0 <= k < |m.functions|
      ensures FunctionFits(m.functions[k], 0, DEFAULT_LIMITS.(maxTotalInstructions := |m.functions[k].code|))
    {
      assert FunctionOk(m, m.functions[k]);
    }
    FitsByTotal(m.functions, 0, DEFAULT_LIMITS);
    InstructionsTakeBytes(m);
  }

  // ---- limits

  lemma {:induction false} FittingFunctions(fs: seq<Function>, total: nat, limits: DecodeLimits, k: nat)
    requires FunctionsFit(fs, total, limits) && k < |fs|
    ensures FunctionWithin(fs[k], limits) && total + TotalInstructions(fs) <= limits.maxTotalInstructions
    decreases |fs|
  {
    if |fs| > 1 { FittingFunctions(fs[1..], total + |fs[0].code|, limits, if k == 0 then 0 else k - 1); }
  }

  predicate FunctionWithin(f: Function, limits: DecodeLimits) {
    && f.captureCount <= limits.maxCaptureCount
    && f.parameterCount <= limits.maxParameterCount
    && f.registerCount <= limits.maxRegisterCount
    && |f.code| <= limits.maxInstructionsPerFunction
    && |f.handlers| <= limits.maxHandlersPerFunction
  }

  /** Whatever is decoded respects every limit. */
  lemma DecodedRespectsLimits(bytes: seq<byte>, limits: DecodeLimits)
    requires Decode(bytes, limits).Ok?
    ensures var m := Decode(bytes, limits).value;
      && |bytes| <= limits.maxBytes
      && |m.constants| <= limits.maxConstants && |m.functions| <= limits.maxFunctions
      && (forall k :: 0 <= k < |m.constants| ==>
            && (m.constants[k].Text? ==> |m.constants[k].units| <= limits.maxStringUnits)
            && (m.constants[k].BigInt? ==> |m.constants[k].digits| <= limits.maxBigIntBytes))
      && (forall k :: 0 <= k < |m.functions| ==> FunctionWithin(m.functions[k], limits))
      && (m.functions != [] ==> TotalInstructions(m.functions) <= limits.maxTotalInstructions)
  {
    hide Decode, EncodeModule, FunctionWithin, TotalInstructions;
    var m := Decode(bytes, limits).value;
    DecodeExact(bytes, limits, m);
    forall k | 0 <= k < |m.functions|
      ensures FunctionWithin(m.functions[k], limits)
      ensures TotalInstructions(m.functions) <= limits.maxTotalInstructions
    {
      FittingFunctions(m.functions, 0, limits, k);
    }
    assert forall k :: 0 <= k < |m.constants| ==> ConstantFits(m.constants[k], limits);
  }

  // ---- conservation

  function Elements(fs: seq<Function>): nat {
    if fs == [] then 0 else 1 + |fs[0].code| + |fs[0].handlers| + Elements(fs[1..])
  }

  lemma FunctionTakesBytes(f: Function)
    ensures |EncodeFunction(f)| >= 1 + |f.code| + |f.handlers|
  {
    hide EncodeIntegers, EncodeCode, EncodeHandlers, Leb;
  }

  lemma {:induction false} FunctionsTakeBytes(fs: seq<Function>)
    ensures |EncodeFunctions(fs)| >= Elements(fs)
    decreases |fs|
  {
    hide EncodeFunction;
    if fs != [] {
      FunctionTakesBytes(fs[0]);
      FunctionsTakeBytes(fs[1..]);
    }
  }

  lemma {:induction false} InstructionsAreElements(fs: seq<Function>)
    ensures TotalInstructions(fs) <= Elements(fs)
    decreases |fs|
  {
    if fs != [] { InstructionsAreElements(fs[1..]); }
  }

  /** A module has fewer instructions than its encoding has bytes. */
  lemma InstructionsTakeBytes(m: Module)
    ensures TotalInstructions(m.functions) < |EncodeModule(m)|
  {
    hide EncodeConstants, EncodeFunctions, Leb;
    FunctionsTakeBytes(m.functions);
    InstructionsAreElements(m.functions);
  }

  /** Every decoded element took at least one byte of input, on every input and under any limits. */
  lemma DecodingConserves(bytes: seq<byte>, limits: DecodeLimits)
    requires Decode(bytes, limits).Ok?
    ensures
      var m := Decode(bytes, limits).value;
      |m.constants| + Elements(m.functions) + 9 <= |bytes| <= limits.maxBytes
  {
    hide Decode, EncodeConstants, EncodeFunctions, Leb, ModuleFits;
    var m := Decode(bytes, limits).value;
    DecodeExact(bytes, limits, m);
    FunctionsTakeBytes(m.functions);
  }
}
