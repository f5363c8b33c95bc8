/** The load boundary: linking, program verification, and decode-and-verify in one operation. */
module Loading {
  import opened Base
  import I = Instructions
  import opened Bytecode
  import V = Verifier
  import F = Fixpoint
  import opened Programs
  import opened Exports
  import L = Linker
  import R = Resolver
  import M = Metadata
  import C = ProgramCodec
  import W = ProgramWire
  import PD = ProgramDecoding
  import MC = Codec
  import MW = ModuleWire
  import MD = Decoding
  import D = Dataflow

  /** Everything linking promises: metadata in order, every export chain ends, no dangling import. */
  ghost predicate LinkOk(p: Program) {
    && M.MetadataOk(p)
    && Bound(p)
    && L.AllSettled(p)
    && R.NoDanglingImports(p)
  }

  datatype LinkError =
    | MetadataFault(moduleId: Option<nat>, metadata: M.MetadataError)
    | ExportFault(fault: L.ExportError)

  /** Module verification has checked the names that program metadata relies on. */
  lemma VerifiedNamesAreStrings(m: Module)
    requires V.ModuleOk(m)
    ensures M.FunctionNamesAreStrings(m)
  {
    forall i | 0 <= i < |m.functions|
      ensures m.functions[i].name.Some? ==> StringAt(m, m.functions[i].name.value).Some?
      ensures forall pc :: 0 <= pc < |m.functions[i].code| && m.functions[i].code[pc].Import? ==>
                StringAt(m, m.functions[i].code[pc].specifier).Some?
    {
      var f := m.functions[i];
      assert V.FunctionOk(m, f);
      forall pc | 0 <= pc < |f.code| && f.code[pc].Import?
        ensures StringAt(m, f.code[pc].specifier).Some?
      {
        ImportNamesAString(m, f, pc);
      }
    }
  }

  lemma ImportNamesAString(m: Module, f: Function, pc: nat)
    requires pc < |f.code| && f.code[pc].Import? && V.InstructionOk(m, f, pc)
    ensures StringAt(m, f.code[pc].specifier).Some?
  {
    var i := f.code[pc];
    assert I.OperandChecks(i)[1] == I.IsString(i.specifier);
    assert V.InstructionChecks(i, pc)[1] == I.IsString(i.specifier);
    assert V.Holds(m, f, V.InstructionChecks(i, pc)[1]);
  }

  /** A metadata error, or an export error, describes a fault that is there. */
  ghost predicate LinkErrorIsReal(p: Program, e: LinkError) {
    match e
    case MetadataFault(at, fault) => M.ErrorIsReal(p, at, fault)
    case ExportFault(fault) => Bound(p) && L.ExportErrorIsReal(p, fault)
  }

  /** Whatever linking reports, the program does not link. */
  lemma LinkErrorRejects(p: Program, e: LinkError)
    requires LinkErrorIsReal(p, e)
    ensures !LinkOk(p)
  {
    hide M.MetadataOk, M.ErrorIsReal, Bound, HopFrom;
    match e
    case MetadataFault(at, fault) => M.ErrorRejects(p, at, fault);
    case ExportFault(IndirectExportCycle(n)) => CycleNeverSettles(p, n);
    case ExportFault(MissingIndirectExport(n)) => L.MissingNeverSettles(p, n);
    case ExportFault(MissingImportedExport(_, _)) =>
  }

  /** Links verified modules: accepted exactly when `LinkOk` holds. */
  method Link(p: Program) returns (e: Option<LinkError>)
    requires forall i :: 0 <= i < |p.modules| ==> V.ModuleOk(p.modules[i].code)
    ensures e.None? <==> LinkOk(p)
    ensures e.Some? ==> LinkErrorIsReal(p, e.value)
  {
    forall i | 0 <= i < |p.modules|
      ensures M.FunctionNamesAreStrings(p.modules[i].code)
    {
      VerifiedNamesAreStrings(p.modules[i].code);
    }
    hide M.ErrorIsReal, L.ExportErrorIsReal, M.MetadataOk, Bound, L.AllSettled, R.NoDanglingImports, V.ModuleOk,
         M.FunctionNamesAreStrings, L.IndexesAll;
    var metadata := M.CheckProgram(p);
    if metadata.Some? { return Some(MetadataFault(metadata.value.0, metadata.value.1)); }
    M.MetadataBounds(p);
    var indices := L.BuildIndices(p);
    var exports := L.VerifyExportResolutions(p, indices);
    if exports.Some? { return Some(ExportFault(exports.value)); }
    var imports := R.VerifyImportedBindings(p, indices);
    if imports.Some? { return Some(ExportFault(imports.value)); }
    e := None;
  }

  /** A program with the certificates of every function of every module. */
  datatype VerifiedProgram = VerifiedProgram(program: Program, certificates: seq<seq<F.Certificate>>)

  ghost predicate IsVerifiedProgram(v: VerifiedProgram) {
    && |v.certificates| == |v.program.modules|
    && (forall i :: 0 <= i < |v.certificates| ==>
          V.IsVerified(V.VerifiedModule(v.program.modules[i].code, v.certificates[i])))
    && LinkOk(v.program)
  }

  /** A program has at most one verified form. */
  lemma VerifiedProgramUnique(v: VerifiedProgram, w: VerifiedProgram)
    requires IsVerifiedProgram(v) && IsVerifiedProgram(w) && v.program == w.program
    ensures v == w
  {
    hide V.IsVerified, LinkOk;
    forall i | 0 <= i < |v.certificates|
      ensures v.certificates[i] == w.certificates[i]
    {
      V.VerifiedUnique(V.VerifiedModule(v.program.modules[i].code, v.certificates[i]),
                       V.VerifiedModule(w.program.modules[i].code, w.certificates[i]));
    }
  }

  datatype ProgramVerifyError = InModule(moduleId: nat, error: V.VerifyError) | InLinkage(link: LinkError)

  ghost predicate ModulesOk(p: Program) {
    forall i :: 0 <= i < |p.modules| ==> V.ModuleOk(p.modules[i].code)
  }

  /** A module fault is the first module's that fails; a linkage fault is of modules that all verify. */
  ghost predicate VerifyErrorIsReal(p: Program, e: ProgramVerifyError) {
    match e
    case InModule(i, error) =>
      && i < |p.modules| && V.ErrorIsReal(p.modules[i].code, error)
      && forall j :: 0 <= j < i ==> V.ModuleOk(p.modules[j].code)
    case InLinkage(link) => ModulesOk(p) && LinkErrorIsReal(p, link)
  }

  /** Whatever is reported of a program, the program does not verify. */
  lemma VerifyErrorRejects(p: Program, e: ProgramVerifyError)
    requires VerifyErrorIsReal(p, e)
    ensures !(ModulesOk(p) && LinkOk(p))
  {
    hide V.ModuleOk, V.ErrorIsReal, LinkOk, LinkErrorIsReal;
    match e
    case InModule(i, error) => V.ErrorRejects(p.modules[i].code, error);
    case InLinkage(link) => LinkErrorRejects(p, link);
  }

  /** Verifies every embedded module, then the linkage. */
  method VerifyProgram(p: Program) returns (r: Result<VerifiedProgram, ProgramVerifyError>)
    ensures r.Ok? <==> ModulesOk(p) && LinkOk(p)
    ensures r.Ok? ==> r.value.program == p && IsVerifiedProgram(r.value)
    ensures r.Err? ==> VerifyErrorIsReal(p, r.error)
  {
    hide V.ModuleOk, LinkOk, V.ErrorIsReal, LinkErrorIsReal;
    var certificates: seq<seq<F.Certificate>> := [];
    for i := 0 to |p.modules|
      invariant |certificates| == i
      invariant forall j :: 0 <= j < i ==> V.ModuleOk(p.modules[j].code)
      invariant forall j :: 0 <= j < i ==> V.IsVerified(V.VerifiedModule(p.modules[j].code, certificates[j]))
    {
      var v := V.VerifyModule(p.modules[i].code);
      if v.Err? { return Err(InModule(i, v.error)); }
      assert v.value == V.VerifiedModule(p.modules[i].code, v.value.certificates);
      certificates := certificates + [v.value.certificates];
    }
    var e := Link(p);
    if e.Some? { return Err(InLinkage(e.value)); }
    r := Ok(VerifiedProgram(p, certificates));
  }

  datatype LoadError = DecodeFailed(decode: C.ProgramDecodeError) | VerifyFailed(verify: ProgramVerifyError)

  /** What loading accepts: the encoding of a program that verifies, within the limits. */
  ghost predicate Loads(bytes: seq<byte>, limits: W.ProgramDecodeLimits, v: VerifiedProgram) {
    && IsVerifiedProgram(v)
    && bytes == W.EncodeProgram(v.program)
    && W.ProgramFits(v.program, limits)
    && |bytes| <= limits.maxBytes
  }

  /** Loading fails as decoding does, or for a fault of the decoded program. */
  ghost predicate LoadErrorIsReal(decoded: Result<Program, C.ProgramDecodeError>, e: LoadError) {
    match e
    case DecodeFailed(decode) => decoded == Err(decode)
    case VerifyFailed(verify) => decoded.Ok? && VerifyErrorIsReal(decoded.value, verify)
  }

  lemma VerifiedModulesOk(v: VerifiedProgram)
    requires IsVerifiedProgram(v)
    ensures ModulesOk(v.program) && LinkOk(v.program)
  {
    hide V.ModuleOk, LinkOk;
    forall i | 0 <= i < |v.program.modules|
      ensures V.ModuleOk(v.program.modules[i].code)
    {
      assert V.IsVerified(V.VerifiedModule(v.program.modules[i].code, v.certificates[i]));
    }
  }

  /** Decode and verify. A verified program comes back exactly, certificates included, from its own
      encoding, and nothing else is ever accepted. */
  method LoadProgram(bytes: seq<byte>, limits: W.ProgramDecodeLimits) returns (r: Result<VerifiedProgram, LoadError>)
    ensures forall v :: Loads(bytes, limits, v) <==> r == Ok(v)
    ensures r.Err? ==> LoadErrorIsReal(W.DecodeProgram(bytes, limits), r.error)
  {
    hide V.IsVerified, LinkOk, VerifyErrorIsReal, W.DecodeProgram, W.EncodeProgram, W.ProgramFits, ModulesOk;
    var decoded := PD.DecodeProgramBytes(bytes, limits);
    if decoded.Err? {
      forall v ensures !Loads(bytes, limits, v) { W.DecodeProgramExact(bytes, limits, v.program); }
      return Err(DecodeFailed(decoded.error));
    }
    var verified := VerifyProgram(decoded.value);
    if verified.Err? {
      forall v ensures !Loads(bytes, limits, v) {
        W.DecodeProgramExact(bytes, limits, v.program);
        if IsVerifiedProgram(v) { VerifiedModulesOk(v); }
      }
      return Err(VerifyFailed(verified.error));
    }
    W.DecodeProgramExact(bytes, limits, decoded.value);
    forall v
      ensures Loads(bytes, limits, v) <==> verified.value == v
    {
      W.DecodeProgramExact(bytes, limits, v.program);
      if Loads(bytes, limits, v) { VerifiedProgramUnique(v, verified.value); }
    }
    r := Ok(verified.value);
  }

  datatype ModuleLoadError = ModuleDecodeFailed(decode: MC.DecodeError) | ModuleVerifyFailed(verify: V.VerifyError)

  /** What module loading accepts: the encoding of a module that verifies, within the limits. */
  ghost predicate LoadsModule(bytes: seq<byte>, limits: MC.DecodeLimits, v: V.VerifiedModule) {
    && V.IsVerified(v)
    && bytes == MW.EncodeModule(v.code)
    && MW.ModuleFits(v.code, limits)
    && |bytes| <= limits.maxBytes
  }

  /** Decode and verify one module: the same law, certificates included. */
  method LoadModule(bytes: seq<byte>, limits: MC.DecodeLimits) returns (r: Result<V.VerifiedModule, ModuleLoadError>)
    ensures forall v :: LoadsModule(bytes, limits, v) <==> r == Ok(v)
    ensures r.Err? ==>
              match r.error
              case ModuleDecodeFailed(e) => MW.Decode(bytes, limits) == Err(e)
              case ModuleVerifyFailed(e) =>
                MW.Decode(bytes, limits).Ok? && V.ErrorIsReal(MW.Decode(bytes, limits).value, e)
  {
    hide MW.Decode, MW.EncodeModule, MW.ModuleFits, V.ModuleOk, V.ErrorIsReal;
    var decoded, _ := MD.DecodeBytes(bytes, limits);
    if decoded.Err? {
      forall v ensures !LoadsModule(bytes, limits, v) { MW.DecodeExact(bytes, limits, v.code); }
      return Err(ModuleDecodeFailed(decoded.error));
    }
    var verified := V.VerifyModule(decoded.value);
    if verified.Err? {
      forall v ensures !LoadsModule(bytes, limits, v) { MW.DecodeExact(bytes, limits, v.code); }
      return Err(ModuleVerifyFailed(verified.error));
    }
    forall v ensures LoadsModule(bytes, limits, v) <==> verified.value == v {
      MW.DecodeExact(bytes, limits, v.code);
      if LoadsModule(bytes, limits, v) { V.VerifiedUnique(v, verified.value); }
    }
    r := Ok(verified.value);
  }

  // ---- what loading buys

  /** In a verified program every point of every run of every function is an instruction whose reads
      are initialised. */
  lemma LoadedRunsAreSafe(v: VerifiedProgram, i: nat, g: nat, run: seq<D.State>)
    requires IsVerifiedProgram(v) && i < |v.program.modules| && g < |v.program.modules[i].code.functions|
    requires D.IsRun(v.program.modules[i].code.functions[g], run)
    ensures forall k :: 0 <= k < |run| ==>
              var code := v.program.modules[i].code.functions[g].code;
              && 0 <= run[k].pc < |code|
              && forall r :: r in I.Reads(code[run[k].pc]) ==> r in run[k].init
  {
    hide LinkOk, D.IsRun, V.IsVerified;
    V.VerifiedRunsAreSafe(V.VerifiedModule(v.program.modules[i].code, v.certificates[i]), g, run);
  }

  /** In a verified program every exported name has exactly one leaf. */
  lemma LoadedNamesResolve(v: VerifiedProgram, i: nat, name: EcmaString)
    requires IsVerifiedProgram(v) && i < |v.program.modules| && FindExport(v.program.modules[i], name).Some?
    ensures Bound(v.program)
    ensures var n := Node(i, FindExport(v.program.modules[i], name).value);
      exists leaf :: R.ResolvesTo(v.program, n, leaf)
        && forall other :: R.ResolvesTo(v.program, n, other) ==> other == leaf
  {
    hide V.IsVerified, M.MetadataOk, Bound, R.NoDanglingImports;
    var k, leaf := R.ChaseStarts(v.program, i, name);
    var n := Node(i, FindExport(v.program.modules[i], name).value);
    forall other | R.ResolvesTo(v.program, n, other)
      ensures other == leaf
    {
      R.ResolutionIsUnique(v.program, n, leaf, other);
    }
  }
}
