/** Consequences of program-decoder exactness: canonical wire, prefix-freeness, conservation. */
module ProgramTheorems {
  import opened Base
  import opened Bytecode
  import opened Wire
  import opened ModuleWire
  import opened ModuleTheorems
  import opened Programs
  import opened ProgramCodec
  import opened ProgramWire

  /** Two accepted byte strings that decode to the same program are the same string. */
  lemma AcceptedProgramsAreCanonical(a: seq<byte>, b: seq<byte>, la: ProgramDecodeLimits, lb: ProgramDecodeLimits)
    requires DecodeProgram(a, la).Ok? && DecodeProgram(b, lb).Ok?
             && DecodeProgram(a, la).value == DecodeProgram(b, lb).value
    ensures a == b
  {
    hide DecodeProgram;
    DecodeProgramExact(a, la, DecodeProgram(a, la).value);
    DecodeProgramExact(b, lb, DecodeProgram(b, lb).value);
  }

  function WiderProgram(a: ProgramDecodeLimits, b: ProgramDecodeLimits): ProgramDecodeLimits {
    ProgramDecodeLimits(
      a.maxBytes + b.maxBytes,
      MaxOf(a.maxModules, b.maxModules),
      a.maxModuleBytes + b.maxModuleBytes,
      a.maxTotalModuleBytes + b.maxTotalModuleBytes,
      MaxOf(a.maxEdgesPerModule, b.maxEdgesPerModule),
      MaxOf(a.maxBindingsPerModule, b.maxBindingsPerModule),
      MaxOf(a.maxExportsPerModule, b.maxExportsPerModule),
      MaxOf(a.maxTotalEdges, b.maxTotalEdges),
      MaxOf(a.maxTotalBindings, b.maxTotalBindings),
      MaxOf(a.maxTotalExports, b.maxTotalExports),
      Wider(a.module_, b.module_))
  }

  predicate AllowsProgram(a: ProgramDecodeLimits, b: ProgramDecodeLimits) {
    && a.maxModules <= b.maxModules
    && a.maxModuleBytes <= b.maxModuleBytes
    && a.maxTotalModuleBytes <= b.maxTotalModuleBytes
    && a.maxEdgesPerModule <= b.maxEdgesPerModule
    && a.maxBindingsPerModule <= b.maxBindingsPerModule
    && a.maxExportsPerModule <= b.maxExportsPerModule
    && a.maxTotalEdges <= b.maxTotalEdges
    && a.maxTotalBindings <= b.maxTotalBindings
    && a.maxTotalExports <= b.maxTotalExports
    && Allows(a.module_, b.module_)
  }

  lemma {:induction false} ProgramModulesFitWider(ms: seq<ProgramModule>, t: Totals, a: ProgramDecodeLimits,
                                                  b: ProgramDecodeLimits)
    requires AllowsProgram(a, b) && ProgramModulesFit(ms, t, a)
    ensures ProgramModulesFit(ms, t, b)
    decreases |ms|
  {
    hide EncodeModule, ModuleFits, After;
    if ms != [] {
      FitsWider(ms[0].code, BlobLimits(a), BlobLimits(b));
      ProgramModulesFitWider(ms[1..], After(t, ms[0]), a, b);
    }
  }

  /** No accepted program is a proper prefix of another, even under different limits. */
  lemma AcceptedProgramsArePrefixFree(a: seq<byte>, b: seq<byte>, la: ProgramDecodeLimits, lb: ProgramDecodeLimits)
    requires DecodeProgram(a, la).Ok? && DecodeProgram(b, lb).Ok? && a <= b
    ensures a == b
  {
    hide DecodeProgram, ReadProgram, EncodeProgram, ProgramModulesFit;
    var p, q := DecodeProgram(a, la).value, DecodeProgram(b, lb).value;
    DecodeProgramExact(a, la, p);
    DecodeProgramExact(b, lb, q);
    var limits := WiderProgram(la, lb);
    ProgramModulesFitWider(p.modules, NONE_YET, la, limits);
    ProgramModulesFitWider(q.modules, NONE_YET, lb, limits);
    assert b[0..|a|] == a && b[0..|b|] == b;
    ProgramComplete(b, limits, p, |a|);
    ProgramComplete(b, limits, q, |b|);
  }

  /** The totals over a list of modules. */
  function Sum(ms: seq<ProgramModule>): Totals {
    if ms == [] then NONE_YET
    else
      var rest, m := Sum(ms[1..]), ms[0];
      Totals(rest.moduleBytes + |EncodeModule(m.code)|, rest.edges + |m.edges|, rest.bindings + |m.bindings|,
             rest.exports + |m.exports|)
  }

  predicate ProgramModuleWithin(m: ProgramModule, limits: ProgramDecodeLimits) {
    && |EncodeModule(m.code)| <= limits.maxModuleBytes
    && |m.edges| <= limits.maxEdgesPerModule
    && |m.bindings| <= limits.maxBindingsPerModule
    && |m.exports| <= limits.maxExportsPerModule
  }

  lemma {:induction false} FittingModules(ms: seq<ProgramModule>, t: Totals, limits: ProgramDecodeLimits, k: nat)
    requires ProgramModulesFit(ms, t, limits) && k < |ms|
    ensures ProgramModuleWithin(ms[k], limits)
    ensures var s := Sum(ms);
      && t.moduleBytes + s.moduleBytes <= limits.maxTotalModuleBytes
      && t.edges + s.edges <= limits.maxTotalEdges
      && t.bindings + s.bindings <= limits.maxTotalBindings
      && t.exports + s.exports <= limits.maxTotalExports
    decreases |ms|
  {
    hide EncodeModule, ModuleFits;
    if |ms| > 1 { FittingModules(ms[1..], After(t, ms[0]), limits, if k == 0 then 0 else k - 1); }
  }

  /** Whatever program is decoded respects every limit, per module and in total. */
  lemma DecodedProgramRespectsLimits(bytes: seq<byte>, limits: ProgramDecodeLimits)
    requires DecodeProgram(bytes, limits).Ok?
    ensures var ms := DecodeProgram(bytes, limits).value.modules;
      && |bytes| <= limits.maxBytes && |ms| <= limits.maxModules
      && (forall k :: 0 <= k < |ms| ==> ProgramModuleWithin(ms[k], limits))
      && (ms != [] ==>
            var s := Sum(ms);
            && s.moduleBytes <= limits.maxTotalModuleBytes && s.edges <= limits.maxTotalEdges
            && s.bindings <= limits.maxTotalBindings && s.exports <= limits.maxTotalExports)
  {
    hide DecodeProgram, EncodeProgram, ProgramModulesFit, ProgramModuleWithin, Sum;
    var p := DecodeProgram(bytes, limits).value;
    DecodeProgramExact(bytes, limits, p);
    forall k | 0 <= k < |p.modules|
      ensures ProgramModuleWithin(p.modules[k], limits)
    {
      FittingModules(p.modules, NONE_YET, limits, k);
    }
    if p.modules != [] { FittingModules(p.modules, NONE_YET, limits, 0); }
  }

  /** Everything a program module is made of. */
  function ModuleElements(m: ProgramModule): nat {
    1 + |m.code.constants| + Elements(m.code.functions) + |m.edges| + |m.bindings| + |m.exports|
  }

  function ProgramElements(ms: seq<ProgramModule>): nat {
    if ms == [] then 0 else ModuleElements(ms[0]) + ProgramElements(ms[1..])
  }

  lemma BlobTakesBytes(m: Module)
    ensures |EncodeModule(m)| >= 9 + |m.constants| + Elements(m.functions)
  {
    hide EncodeConstants, EncodeFunctions, Leb;
    FunctionsTakeBytes(m.functions);
  }

  lemma ProgramModuleTakesBytes(m: ProgramModule)
    ensures |EncodeProgramModule(m)| >= ModuleElements(m)
  {
    hide EncodeModule, EncodeRows, Leb, EdgeRows, BindingRows, ExportRows;
    BlobTakesBytes(m.code);
  }

  lemma {:induction false} ProgramModulesTakeBytes(ms: seq<ProgramModule>)
    ensures |EncodeProgramModules(ms)| >= ProgramElements(ms)
    decreases |ms|
  {
    hide EncodeProgramModule, ModuleElements;
    if ms != [] {
      ProgramModuleTakesBytes(ms[0]);
      ProgramModulesTakeBytes(ms[1..]);
    }
  }

  /** Modules, constants, functions, instructions, handlers, edges, bindings and exports together number
      at most the bytes decoded. */
  lemma ProgramDecodingConserves(bytes: seq<byte>, limits: ProgramDecodeLimits)
    requires DecodeProgram(bytes, limits).Ok?
    ensures ProgramElements(DecodeProgram(bytes, limits).value.modules) + 9 <= |bytes| <= limits.maxBytes
  {
    hide DecodeProgram, EncodeProgramModules, ProgramElements, Leb, ProgramModulesFit;
    var p := DecodeProgram(bytes, limits).value;
    DecodeProgramExact(bytes, limits, p);
    ProgramModulesTakeBytes(p.modules);
  }
}
