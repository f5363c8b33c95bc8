/** The program envelope: length-delimited module blobs with their linkage tables. */
module ProgramWire {
  import opened Base
  import opened Bytecode
  import opened Wire
  import opened Codec
  import opened ModuleWire
  import opened Programs
  import opened ProgramCodec

  const PROGRAM_MAGIC: seq<byte> := [66, 77, 84, 80, 67, 0, 0, 1]
  const PROGRAM_VERSION: byte := 4

  datatype ProgramDecodeLimits = ProgramDecodeLimits(
    maxBytes: nat,
    maxModules: U32,
    maxModuleBytes: nat,
    maxTotalModuleBytes: nat,
    maxEdgesPerModule: U32,
    maxBindingsPerModule: U32,
    maxExportsPerModule: U32,
    maxTotalEdges: U32,
    maxTotalBindings: U32,
    maxTotalExports: U32,
    module_: DecodeLimits)

  /** The limits a module blob is decoded under. */
  function BlobLimits(limits: ProgramDecodeLimits): DecodeLimits {
    limits.module_.(maxBytes :=
      if limits.module_.maxBytes <= limits.maxModuleBytes then limits.module_.maxBytes else limits.maxModuleBytes)
  }

  /** Running totals over the modules read so far. */
  datatype Totals = Totals(moduleBytes: nat, edges: nat, bindings: nat, exports: nat)

  function After(t: Totals, m: ProgramModule): Totals {
    Totals(t.moduleBytes + |EncodeModule(m.code)|, t.edges + |m.edges|, t.bindings + |m.bindings|,
           t.exports + |m.exports|)
  }

  // ---- module blobs

  function EncodeBlob(m: Module): seq<byte> {
    LebLength(|EncodeModule(m)|) + EncodeModule(m)
  }

  predicate BlobFits(m: Module, total: nat, limits: ProgramDecodeLimits) {
    && |EncodeModule(m)| < U32_LIMIT
    && |EncodeModule(m)| <= limits.maxModuleBytes
    && total + |EncodeModule(m)| <= limits.maxTotalModuleBytes
    && ModuleFits(m, BlobLimits(limits))
    && |EncodeModule(m)| <= BlobLimits(limits).maxBytes
  }

  /** A length, then a slice that the module decoder must consume exactly. */
  function ReadBlob(bytes: seq<byte>, at: nat, moduleId: nat, total: nat, limits: ProgramDecodeLimits): Read<Module> {
    match ReadInteger(bytes, at)
    case Bad(e) => Bad(e)
    case Got(n, middle) =>
      if n > limits.maxModuleBytes
      then Bad(ProgramDecodeError(middle, OverLimit(ModuleBytes, limits.maxModuleBytes, n)))
      else if total + n > limits.maxTotalModuleBytes
      then Bad(ProgramDecodeError(middle, OverLimit(TotalModuleBytes, limits.maxTotalModuleBytes, total + n)))
      else if middle + n > |bytes| then Bad(Enveloped(middle, EndOfInput))
      else
        match Decode(bytes[middle..middle + n], BlobLimits(limits))
        case Err(e) => Bad(ProgramDecodeError(middle + e.offset, InModule(moduleId, e)))
        case Ok(m) => Got(m, middle + n)
  }

  lemma BlobSound(bytes: seq<byte>, at: nat, moduleId: nat, total: nat, limits: ProgramDecodeLimits)
    requires ReadBlob(bytes, at, moduleId, total, limits).Got?
    ensures var r := ReadBlob(bytes, at, moduleId, total, limits);
      BlobFits(r.value, total, limits) && Occurs(bytes, at, EncodeBlob(r.value), r.next)
  {
    hide ReadInteger, Leb, Decode, EncodeModule, ModuleFits;
    var n, r := ReadInteger(bytes, at), ReadBlob(bytes, at, moduleId, total, limits);
    ReadIntegerExact(bytes, at, n.value, n.next);
    DecodeExact(bytes[n.next..n.next + n.value], BlobLimits(limits), r.value);
    OccursConcat(bytes, at, Leb(n.value), EncodeModule(r.value), r.next);
  }

  lemma BlobComplete(bytes: seq<byte>, at: nat, moduleId: nat, total: nat, limits: ProgramDecodeLimits, m: Module,
                     next: nat)
    requires BlobFits(m, total, limits) && Occurs(bytes, at, EncodeBlob(m), next)
    ensures ReadBlob(bytes, at, moduleId, total, limits) == Got(m, next)
  {
    hide ReadInteger, Leb, Decode, EncodeModule, ModuleFits;
    var n := |EncodeModule(m)|;
    OccursConcat(bytes, at, Leb(n), EncodeModule(m), next);
    ReadIntegerExact(bytes, at, n, at + |Leb(n)|);
    DecodeExact(EncodeModule(m), BlobLimits(limits), m);
  }

  // ---- one program module

  function EncodeTables(m: ProgramModule): seq<byte> {
    EncodeTable(EdgeTable, EdgeRows(m.edges))
    + (EncodeTable(BindingTable, BindingRows(m.bindings)) + EncodeTable(ExportTable, ExportRows(m.exports)))
  }

  function EncodeProgramModule(m: ProgramModule): seq<byte> {
    Leb(m.name) + (EncodeBlob(m.code) + EncodeTables(m))
  }

  predicate TablesFit(m: ProgramModule, t: Totals, limits: ProgramDecodeLimits) {
    && |m.edges| <= limits.maxEdgesPerModule && t.edges + |m.edges| <= limits.maxTotalEdges
    && |m.bindings| <= limits.maxBindingsPerModule && t.bindings + |m.bindings| <= limits.maxTotalBindings
    && |m.exports| <= limits.maxExportsPerModule && t.exports + |m.exports| <= limits.maxTotalExports
  }

  predicate ProgramModuleFits(m: ProgramModule, t: Totals, limits: ProgramDecodeLimits) {
    BlobFits(m.code, t.moduleBytes, limits) && TablesFit(m, t, limits)
  }

  /** The three tables of a module, as rows. */
  datatype Linkage = Linkage(edges: seq<Row>, bindings: seq<Row>, exports: seq<Row>)

  function ReadLinkage(bytes: seq<byte>, at: nat, t: Totals, limits: ProgramDecodeLimits): Read<Linkage> {
    match ReadTable(bytes, at, EdgeTable, limits.maxEdgesPerModule, t.edges, limits.maxTotalEdges)
    case Bad(e) => Bad(e)
    case Got(edges, a) =>
      match ReadTable(bytes, a, BindingTable, limits.maxBindingsPerModule, t.bindings, limits.maxTotalBindings)
      case Bad(e) => Bad(e)
      case Got(bindings, b) =>
        match ReadTable(bytes, b, ExportTable, limits.maxExportsPerModule, t.exports, limits.maxTotalExports)
        case Bad(e) => Bad(e)
        case Got(exports, next) => Got(Linkage(edges, bindings, exports), next)
  }

  predicate LinkageFits(l: Linkage, t: Totals, limits: ProgramDecodeLimits) {
    && TableFits(EdgeTable, l.edges, limits.maxEdgesPerModule, t.edges, limits.maxTotalEdges)
    && TableFits(BindingTable, l.bindings, limits.maxBindingsPerModule, t.bindings, limits.maxTotalBindings)
    && TableFits(ExportTable, l.exports, limits.maxExportsPerModule, t.exports, limits.maxTotalExports)
  }

  function EncodeLinkage(l: Linkage): seq<byte> {
    EncodeTable(EdgeTable, l.edges) + (EncodeTable(BindingTable, l.bindings) + EncodeTable(ExportTable, l.exports))
  }

  lemma LinkageSound(bytes: seq<byte>, at: nat, t: Totals, limits: ProgramDecodeLimits)
    requires ReadLinkage(bytes, at, t, limits).Got?
    ensures var r := ReadLinkage(bytes, at, t, limits);
      LinkageFits(r.value, t, limits) && Occurs(bytes, at, EncodeLinkage(r.value), r.next)
  {
    hide ReadTable, EncodeTable, TableFits;
    var r := ReadLinkage(bytes, at, t, limits);
    var l := r.value;
    var edges := ReadTable(bytes, at, EdgeTable, limits.maxEdgesPerModule, t.edges, limits.maxTotalEdges);
    TableSound(bytes, at, EdgeTable, limits.maxEdgesPerModule, t.edges, limits.maxTotalEdges);
    var bindings := ReadTable(bytes, edges.next, BindingTable, limits.maxBindingsPerModule, t.bindings,
                              limits.maxTotalBindings);
    TableSound(bytes, edges.next, BindingTable, limits.maxBindingsPerModule, t.bindings, limits.maxTotalBindings);
    TableSound(bytes, bindings.next, ExportTable, limits.maxExportsPerModule, t.exports, limits.maxTotalExports);
    OccursConcat(bytes, edges.next, EncodeTable(BindingTable, l.bindings), EncodeTable(ExportTable, l.exports), r.next);
    OccursConcat(bytes, at, EncodeTable(EdgeTable, l.edges),
                 EncodeTable(BindingTable, l.bindings) + EncodeTable(ExportTable, l.exports), r.next);
  }

  lemma LinkageComplete(bytes: seq<byte>, at: nat, t: Totals, limits: ProgramDecodeLimits, l: Linkage, next: nat)
    requires LinkageFits(l, t, limits) && Occurs(bytes, at, EncodeLinkage(l), next)
    ensures ReadLinkage(bytes, at, t, limits) == Got(l, next)
  {
    hide ReadTable, EncodeTable, TableFits;
    var edges, bindings, exports := EncodeTable(EdgeTable, l.edges), EncodeTable(BindingTable, l.bindings),
      EncodeTable(ExportTable, l.exports);
    var a := at + |edges|;
    var b := a + |bindings|;
    OccursConcat(bytes, at, edges, bindings + exports, next);
    OccursConcat(bytes, a, bindings, exports, next);
    TableComplete(bytes, at, EdgeTable, limits.maxEdgesPerModule, t.edges, limits.maxTotalEdges, l.edges, a);
    TableComplete(bytes, a, BindingTable, limits.maxBindingsPerModule, t.bindings, limits.maxTotalBindings, l.bindings,
                  b);
    TableComplete(bytes, b, ExportTable, limits.maxExportsPerModule, t.exports, limits.maxTotalExports, l.exports,
                  next);
  }

  function ReadProgramModule(bytes: seq<byte>, at: nat, moduleId: nat, t: Totals,
                             limits: ProgramDecodeLimits): Read<ProgramModule> {
    match ReadInteger(bytes, at)
    case Bad(e) => Bad(e)
    case Got(name, a) =>
      match ReadBlob(bytes, a, moduleId, t.moduleBytes, limits)
      case Bad(e) => Bad(e)
      case Got(code, b) =>
        match ReadLinkage(bytes, b, t, limits)
        case Bad(e) => Bad(e)
        case Got(l, next) =>
          LinkageSound(bytes, b, t, limits);
          Got(ProgramModule(name, code, EdgesOf(l.edges), BindingsOf(l.bindings), ExportsOf(l.exports)), next)
  }

  function LinkageOf(m: ProgramModule): Linkage {
    Linkage(EdgeRows(m.edges), BindingRows(m.bindings), ExportRows(m.exports))
  }

  lemma ProgramModuleSound(bytes: seq<byte>, at: nat, moduleId: nat, t: Totals, limits: ProgramDecodeLimits)
    requires ReadProgramModule(bytes, at, moduleId, t, limits).Got?
    ensures var r := ReadProgramModule(bytes, at, moduleId, t, limits);
      ProgramModuleFits(r.value, t, limits) && Occurs(bytes, at, EncodeProgramModule(r.value), r.next)
  {
    hide ReadInteger, Leb, ReadBlob, EncodeBlob, BlobFits, ReadLinkage, EncodeTable, EdgeRows, BindingRows, ExportRows,
         EdgesOf, BindingsOf, ExportsOf, RowsFit;
    var r := ReadProgramModule(bytes, at, moduleId, t, limits);
    var m := r.value;
    var name := ReadInteger(bytes, at);
    ReadIntegerExact(bytes, at, name.value, name.next);
    var code := ReadBlob(bytes, name.next, moduleId, t.moduleBytes, limits);
    BlobSound(bytes, name.next, moduleId, t.moduleBytes, limits);
    LinkageSound(bytes, code.next, t, limits);
    OccursConcat(bytes, name.next, EncodeBlob(m.code), EncodeTables(m), r.next);
    OccursConcat(bytes, at, Leb(m.name), EncodeBlob(m.code) + EncodeTables(m), r.next);
  }

  lemma ProgramModuleComplete(bytes: seq<byte>, at: nat, moduleId: nat, t: Totals, limits: ProgramDecodeLimits,
                              m: ProgramModule, next: nat)
    requires ProgramModuleFits(m, t, limits) && Occurs(bytes, at, EncodeProgramModule(m), next)
    ensures ReadProgramModule(bytes, at, moduleId, t, limits) == Got(m, next)
  {
    hide ReadInteger, Leb, ReadBlob, EncodeBlob, BlobFits, ReadLinkage, EncodeTable, EdgeRows, BindingRows, ExportRows,
         EdgesOf, BindingsOf, ExportsOf, RowsFit;
    var a := at + |Leb(m.name)|;
    var b := a + |EncodeBlob(m.code)|;
    OccursConcat(bytes, at, Leb(m.name), EncodeBlob(m.code) + EncodeTables(m), next);
    OccursConcat(bytes, a, EncodeBlob(m.code), EncodeTables(m), next);
    ReadIntegerExact(bytes, at, m.name, a);
    BlobComplete(bytes, a, moduleId, t.moduleBytes, limits, m.code, b);
    LinkageComplete(bytes, b, t, limits, LinkageOf(m), next);
    EntitiesOfRows(m.edges, m.bindings, m.exports);
  }

  // ---- the module list

  function EncodeProgramModules(ms: seq<ProgramModule>): seq<byte> {
    if ms == [] then [] else EncodeProgramModule(ms[0]) + EncodeProgramModules(ms[1..])
  }

  function ReadProgramModules(bytes: seq<byte>, at: nat, moduleId: nat, n: nat, t: Totals,
                              limits: ProgramDecodeLimits): Read<seq<ProgramModule>>
    decreases n
  {
    if n == 0 then Got([], at)
    else
      match ReadProgramModule(bytes, at, moduleId, t, limits)
      case Bad(e) => Bad(e)
      case Got(m, middle) =>
        match ReadProgramModules(bytes, middle, moduleId + 1, n - 1, After(t, m), limits)
        case Bad(e) => Bad(e)
        case Got(rest, next) => Got([m] + rest, next)
  }

  /** Each module within the limits, the totals running. */
  predicate ProgramModulesFit(ms: seq<ProgramModule>, t: Totals, limits: ProgramDecodeLimits)
    decreases |ms|
  {
    ms != [] ==> ProgramModuleFits(ms[0], t, limits) && ProgramModulesFit(ms[1..], After(t, ms[0]), limits)
  }

  lemma {:induction false} ProgramModulesSound(bytes: seq<byte>, at: nat, moduleId: nat, n: nat, t: Totals,
                                               limits: ProgramDecodeLimits)
    requires at <= |bytes| && ReadProgramModules(bytes, at, moduleId, n, t, limits).Got?
    ensures var r := ReadProgramModules(bytes, at, moduleId, n, t, limits);
      && |r.value| == n && ProgramModulesFit(r.value, t, limits)
      && Occurs(bytes, at, EncodeProgramModules(r.value), r.next)
    decreases n
  {
    hide ReadProgramModule, EncodeProgramModule, ProgramModuleFits, After;
    if n > 0 {
      var r := ReadProgramModules(bytes, at, moduleId, n, t, limits);
      var first := ReadProgramModule(bytes, at, moduleId, t, limits);
      ProgramModuleSound(bytes, at, moduleId, t, limits);
      ProgramModulesSound(bytes, first.next, moduleId + 1, n - 1, After(t, first.value), limits);
      assert r.value[1..]
             == ReadProgramModules(bytes, first.next, moduleId + 1, n - 1, After(t, first.value), limits).value;
      OccursConcat(bytes, at, EncodeProgramModule(first.value), EncodeProgramModules(r.value[1..]), r.next);
    }
  }

  lemma {:induction false} ProgramModulesComplete(bytes: seq<byte>, at: nat, moduleId: nat, t: Totals,
                                                  limits: ProgramDecodeLimits, ms: seq<ProgramModule>, next: nat)
    requires ProgramModulesFit(ms, t, limits) && Occurs(bytes, at, EncodeProgramModules(ms), next)
    ensures ReadProgramModules(bytes, at, moduleId, |ms|, t, limits) == Got(ms, next)
    decreases |ms|
  {
    hide ReadProgramModule, EncodeProgramModule, ProgramModuleFits, After;
    if ms != [] {
      var middle := at + |EncodeProgramModule(ms[0])|;
      OccursConcat(bytes, at, EncodeProgramModule(ms[0]), EncodeProgramModules(ms[1..]), next);
      ProgramModuleComplete(bytes, at, moduleId, t, limits, ms[0], middle);
      ProgramModulesComplete(bytes, middle, moduleId + 1, After(t, ms[0]), limits, ms[1..], next);
      assert ms == [ms[0]] + ms[1..];
    }
  }

  // ---- the program

  function EncodeProgram(p: Program): seq<byte> {
    (PROGRAM_MAGIC + [PROGRAM_VERSION]) + (Leb(p.entry) + (LebLength(|p.modules|) + EncodeProgramModules(p.modules)))
  }

  const NONE_YET: Totals := Totals(0, 0, 0, 0)

  predicate ProgramFits(p: Program, limits: ProgramDecodeLimits) {
    |p.modules| <= limits.maxModules && ProgramModulesFit(p.modules, NONE_YET, limits)
  }

  function ReadProgramPreamble(bytes: seq<byte>): Read<()> {
    match ParseMagic(bytes, 0, PROGRAM_MAGIC)
    case Bad(e) => Bad(Enveloped(e.offset, e.kind))
    case Got(_, at) =>
      match ReadByte(bytes, at)
      case Bad(e) => Bad(e)
      case Got(version, next) =>
        if version != PROGRAM_VERSION then Bad(Enveloped(at, UnsupportedVersion(version))) else Got((), next)
  }

  lemma ProgramPreambleExact(bytes: seq<byte>, next: nat)
    ensures ReadProgramPreamble(bytes) == Got((), next) <==> Occurs(bytes, 0, PROGRAM_MAGIC + [PROGRAM_VERSION], next)
  {
    hide ParseMagic;
    OccursConcat(bytes, 0, PROGRAM_MAGIC, [PROGRAM_VERSION], next);
    MagicExact(bytes, 0, PROGRAM_MAGIC, |PROGRAM_MAGIC|);
    ReadByteExact(bytes, |PROGRAM_MAGIC|, PROGRAM_VERSION, next);
    var magic := ParseMagic(bytes, 0, PROGRAM_MAGIC);
    if magic.Got? {
      assert magic.value == ();
      MagicExact(bytes, 0, PROGRAM_MAGIC, magic.next);
      if magic.next < |bytes| { ReadByteExact(bytes, magic.next, bytes[magic.next], magic.next + 1); }
    }
  }

  function ReadBody(bytes: seq<byte>, at: nat, limits: ProgramDecodeLimits): Read<Program> {
    match ReadInteger(bytes, at)
    case Bad(e) => Bad(e)
    case Got(entry, a) =>
      match ReadInteger(bytes, a)
      case Bad(e) => Bad(e)
      case Got(n, b) =>
        if n > limits.maxModules then Bad(ProgramDecodeError(b, OverLimit(Modules, limits.maxModules, n)))
        else
          match ReadProgramModules(bytes, b, 0, n, NONE_YET, limits)
          case Bad(e) => Bad(e)
          case Got(ms, next) => Got(Program(ms, entry), next)
  }

  function ReadProgram(bytes: seq<byte>, limits: ProgramDecodeLimits): Read<Program> {
    match ReadProgramPreamble(bytes)
    case Bad(e) => Bad(e)
    case Got(_, at) => ReadBody(bytes, at, limits)
  }

  lemma ProgramSound(bytes: seq<byte>, limits: ProgramDecodeLimits)
    requires ReadProgram(bytes, limits).Got?
    ensures var r := ReadProgram(bytes, limits);
      ProgramFits(r.value, limits) && Occurs(bytes, 0, EncodeProgram(r.value), r.next)
  {
    hide ReadProgramPreamble, ReadInteger, Leb, ReadProgramModules, EncodeProgramModules, ProgramModulesFit;
    var r := ReadProgram(bytes, limits);
    var p := r.value;
    var preamble := ReadProgramPreamble(bytes);
    assert preamble.value == ();
    ProgramPreambleExact(bytes, preamble.next);
    var entry := ReadInteger(bytes, preamble.next);
    ReadIntegerExact(bytes, preamble.next, entry.value, entry.next);
    var n := ReadInteger(bytes, entry.next);
    ReadIntegerExact(bytes, entry.next, n.value, n.next);
    ProgramModulesSound(bytes, n.next, 0, n.value, NONE_YET, limits);
    var modules := EncodeProgramModules(p.modules);
    OccursConcat(bytes, entry.next, Leb(n.value), modules, r.next);
    OccursConcat(bytes, preamble.next, Leb(p.entry), Leb(n.value) + modules, r.next);
    OccursConcat(bytes, 0, PROGRAM_MAGIC + [PROGRAM_VERSION], Leb(p.entry) + (Leb(n.value) + modules), r.next);
  }

  lemma ProgramComplete(bytes: seq<byte>, limits: ProgramDecodeLimits, p: Program, next: nat)
    requires ProgramFits(p, limits) && Occurs(bytes, 0, EncodeProgram(p), next)
    ensures ReadProgram(bytes, limits) == Got(p, next)
  {
    hide ReadProgramPreamble, ReadInteger, Leb, ReadProgramModules, EncodeProgramModules, ProgramModulesFit;
    var modules, n := EncodeProgramModules(p.modules), Leb(|p.modules|);
    var a := |PROGRAM_MAGIC + [PROGRAM_VERSION]|;
    var b := a + |Leb(p.entry)|;
    var c := b + |n|;
    OccursConcat(bytes, 0, PROGRAM_MAGIC + [PROGRAM_VERSION], Leb(p.entry) + (n + modules), next);
    OccursConcat(bytes, a, Leb(p.entry), n + modules, next);
    OccursConcat(bytes, b, n, modules, next);
    ProgramPreambleExact(bytes, a);
    ReadIntegerExact(bytes, a, p.entry, b);
    ReadIntegerExact(bytes, b, |p.modules|, c);
    ProgramModulesComplete(bytes, c, 0, NONE_YET, limits, p.modules, next);
  }

  function DecodeProgram(bytes: seq<byte>, limits: ProgramDecodeLimits): Result<Program, ProgramDecodeError> {
    if |bytes| > limits.maxBytes then Err(Enveloped(0, InputLimitExceeded(limits.maxBytes, |bytes|)))
    else
      match ReadProgram(bytes, limits)
      case Bad(e) => Err(e)
      case Got(p, next) =>
        if next != |bytes| then Err(Enveloped(next, TrailingBytes(if next <= |bytes| then |bytes| - next else 0)))
        else Ok(p)
  }

  /** Exactness of the nested decoders: a byte string decodes to a program if and only if it is that
      program's encoding, every blob being exactly its module's encoding, within the limits. */
  lemma DecodeProgramExact(bytes: seq<byte>, limits: ProgramDecodeLimits, p: Program)
    ensures DecodeProgram(bytes, limits) == Ok(p) <==>
            bytes == EncodeProgram(p) && ProgramFits(p, limits) && |bytes| <= limits.maxBytes
  {
    hide ReadProgram, EncodeProgram, ProgramFits;
    if DecodeProgram(bytes, limits) == Ok(p) {
      ProgramSound(bytes, limits);
      assert bytes[0..|bytes|] == bytes;
    }
    if bytes == EncodeProgram(p) && ProgramFits(p, limits) && |bytes| <= limits.maxBytes {
      assert bytes[0..|bytes|] == bytes;
      ProgramComplete(bytes, limits, p, |bytes|);
    }
  }
}
