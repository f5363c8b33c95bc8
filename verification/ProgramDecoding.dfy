/** The stateful program decoder: an offset and running totals, with a module decoder run on each blob. */
module ProgramDecoding {
  import opened Base
  import opened Bytecode
  import opened Wire
  import opened Codec
  import opened ModuleWire
  import opened Decoding
  import opened Programs
  import opened ProgramCodec
  import opened ProgramWire

  class ProgramDecoder {
    const bytes: seq<byte>
    const limits: ProgramDecodeLimits
    var offset: nat
    var totalModuleBytes: nat
    var totalEdges: nat
    var totalBindings: nat
    var totalExports: nat

    ghost predicate Valid()
      reads this
    {
      offset <= |bytes|
    }

    ghost function Running(): Totals
      reads this
    {
      Totals(totalModuleBytes, totalEdges, totalBindings, totalExports)
    }

    constructor (bytes: seq<byte>, limits: ProgramDecodeLimits)
      ensures this.bytes == bytes && this.limits == limits
      ensures Valid() && offset == 0 && Running() == NONE_YET
    {
      this.bytes := bytes;
      this.limits := limits;
      offset := 0;
      totalModuleBytes, totalEdges, totalBindings, totalExports := 0, 0, 0, 0;
    }

    method Byte() returns (r: Result<byte, ProgramDecodeError>)
      requires Valid()
      modifies this`offset
      ensures Valid() && old(offset) <= offset && Agrees(r, ReadByte(bytes, old(offset)), offset)
    {
      if offset >= |bytes| { return Err(Enveloped(offset, EndOfInput)); }
      r := Ok(bytes[offset]);
      offset := offset + 1;
    }

    method Unsigned() returns (r: Result<U32, ProgramDecodeError>)
      requires Valid()
      modifies this`offset
      ensures Valid() && old(offset) <= offset && Agrees(r, ReadInteger(bytes, old(offset)), offset)
    {
      var start := offset;
      var read := ReadLeb128(bytes, offset);
      LebStops(bytes, offset, 0);
      match read {
        case LebOk(n, next) =>
          offset := next;
          r := Ok(n);
        case LebErr(error, stopped) =>
          offset := stopped;
          r := Err(Enveloped(start, match error
                                    case UnexpectedEof => EndOfInput
                                    case IntegerOverflow => IntegerTooWide
                                    case NonCanonicalInteger => OverlongInteger));
      }
    }

    method Integers(k: nat) returns (r: Result<seq<U32>, ProgramDecodeError>)
      requires Valid()
      modifies this`offset
      ensures Valid() && old(offset) <= offset && Agrees(r, ReadIntegers(bytes, old(offset), k), offset)
    {
      hide ReadInteger;
      var ns: seq<U32> := [];
      PrependNone(ReadIntegers(bytes, offset, k));
      for i := 0 to k
        invariant Valid() && old(offset) <= offset
        invariant ReadIntegers(bytes, old(offset), k) == Prepend(ns, ReadIntegers(bytes, offset, k - i))
      {
        var n := Unsigned();
        if n.Err? { return Err(n.error); }
        PrependTwice(ns, n.value, ReadIntegers(bytes, offset, k - i - 1));
        ns := ns + [n.value];
      }
      PrependEnd(ns, ReadIntegers(bytes, offset, 0));
      r := Ok(ns);
    }

    method RowRecord(t: Table) returns (r: Result<Row, ProgramDecodeError>)
      requires Valid()
      modifies this`offset
      ensures Valid() && old(offset) <= offset && Agrees(r, ReadRow(bytes, old(offset), t), offset)
    {
      hide ReadInteger, ReadIntegers;
      var name := Unsigned();
      if name.Err? { return Err(name.error); }
      var tagAt := offset;
      var tag := Byte();
      if tag.Err? { return Err(tag.error); }
      if Arity(t, tag.value).None? { return Err(ProgramDecodeError(tagAt, InvalidTag(t, tag.value))); }
      var args := Integers(Arity(t, tag.value).value);
      if args.Err? { return Err(args.error); }
      var tail: byte := 0;
      if t.EdgeTable? {
        var kindAt := offset;
        var kind := Byte();
        if kind.Err? { return Err(kind.error); }
        if kind.value >= 3 { return Err(ProgramDecodeError(kindAt, InvalidEdgeKind(kind.value))); }
        tail := kind.value;
      }
      r := Ok(Row(name.value, tag.value, args.value, tail));
    }

    /** The total and the limits of a table, read together. */
    function TotalOf(t: Table): nat
      reads this
    {
      match t
      case EdgeTable => totalEdges
      case BindingTable => totalBindings
      case ExportTable => totalExports
    }

    function MaxRows(t: Table): U32 {
      match t
      case EdgeTable => limits.maxEdgesPerModule
      case BindingTable => limits.maxBindingsPerModule
      case ExportTable => limits.maxExportsPerModule
    }

    function MaxTotal(t: Table): U32 {
      match t
      case EdgeTable => limits.maxTotalEdges
      case BindingTable => limits.maxTotalBindings
      case ExportTable => limits.maxTotalExports
    }

    /** Adds to one running total and reports it if it goes over its limit. */
    method AddTotal(t: Table, n: nat) returns (e: Option<ProgramDecodeError>)
      modifies this`totalEdges, this`totalBindings, this`totalExports
      ensures TotalOf(t) == old(TotalOf(t)) + n
      ensures forall u :: u != t ==> TotalOf(u) == old(TotalOf(u))
      ensures e.Some? <==> TotalOf(t) > MaxTotal(t)
      ensures e.Some? ==> e.value == ProgramDecodeError(offset, OverLimit(TotalRows(t), MaxTotal(t), TotalOf(t)))
    {
      match t {
        case EdgeTable => totalEdges := totalEdges + n;
        case BindingTable => totalBindings := totalBindings + n;
        case ExportTable => totalExports := totalExports + n;
      }
      if TotalOf(t) <= MaxTotal(t) { return None; }
      e := Some(ProgramDecodeError(offset, OverLimit(TotalRows(t), MaxTotal(t), TotalOf(t))));
    }

    method TableRows(t: Table) returns (r: Result<seq<Row>, ProgramDecodeError>)
      requires Valid()
      modifies this`offset, this`totalEdges, this`totalBindings, this`totalExports
      ensures Valid() && old(offset) <= offset
      ensures Agrees(r, ReadTable(bytes, old(offset), t, MaxRows(t), old(TotalOf(t)), MaxTotal(t)), offset)
      ensures r.Ok? ==> TotalOf(t) == old(TotalOf(t)) + |r.value|
      ensures forall u :: u != t ==> TotalOf(u) == old(TotalOf(u))
    {
      hide ReadInteger, ReadRow, EncodeRows;
      var n := Unsigned();
      if n.Err? { return Err(n.error); }
      if n.value > MaxRows(t) { return Err(ProgramDecodeError(offset, OverLimit(Rows(t), MaxRows(t), n.value))); }
      var over := AddTotal(t, n.value);
      if over.Some? { return Err(over.value); }
      var start := offset;
      var rows: seq<Row> := [];
      PrependNone(ReadRows(bytes, start, t, n.value));
      for k := 0 to n.value
        invariant Valid() && start <= offset && |rows| == k
        invariant TotalOf(t) == old(TotalOf(t)) + n.value && forall u :: u != t ==> TotalOf(u) == old(TotalOf(u))
        invariant ReadRows(bytes, start, t, n.value) == Prepend(rows, ReadRows(bytes, offset, t, n.value - k))
      {
        var row := RowRecord(t);
        if row.Err? { return Err(row.error); }
        PrependTwice(rows, row.value, ReadRows(bytes, offset, t, n.value - k - 1));
        rows := rows + [row.value];
      }
      PrependEnd(rows, ReadRows(bytes, offset, t, 0));
      r := Ok(rows);
    }

    /** A length-delimited slice, handed whole to a module decoder of its own. */
    method Blob(moduleId: nat) returns (r: Result<Module, ProgramDecodeError>)
      requires Valid()
      modifies this`offset, this`totalModuleBytes
      ensures Valid() && old(offset) <= offset
      ensures Agrees(r, ReadBlob(bytes, old(offset), moduleId, old(totalModuleBytes), limits), offset)
      ensures r.Ok? ==> totalModuleBytes == old(totalModuleBytes) + |EncodeModule(r.value)|
    {
      hide ReadInteger, Decode, EncodeModule, ModuleFits;
      var n := Unsigned();
      if n.Err? { return Err(n.error); }
      if n.value > limits.maxModuleBytes {
        return Err(ProgramDecodeError(offset, OverLimit(ModuleBytes, limits.maxModuleBytes, n.value)));
      }
      totalModuleBytes := totalModuleBytes + n.value;
      if totalModuleBytes > limits.maxTotalModuleBytes {
        var over := OverLimit(TotalModuleBytes, limits.maxTotalModuleBytes, totalModuleBytes);
        return Err(ProgramDecodeError(offset, over));
      }
      if offset + n.value > |bytes| { return Err(Enveloped(offset, EndOfInput)); }
      var start := offset;
      var blob := bytes[offset..offset + n.value];
      offset := offset + n.value;
      var code, _ := DecodeBytes(blob, BlobLimits(limits));
      if code.Err? {
        var inModule := ProgramDecodeErrorKind.InModule(moduleId, code.error);
        return Err(ProgramDecodeError(start + code.error.offset, inModule));
      }
      DecodeExact(blob, BlobLimits(limits), code.value);
      r := Ok(code.value);
    }

    method LinkageRecord() returns (r: Result<Linkage, ProgramDecodeError>)
      requires Valid()
      modifies this`offset, this`totalEdges, this`totalBindings, this`totalExports
      ensures Valid() && old(offset) <= offset
      ensures Agrees(r, ReadLinkage(bytes, old(offset), old(Running()), limits), offset)
      ensures r.Ok? ==>
                && totalEdges == old(totalEdges) + |r.value.edges|
                && totalBindings == old(totalBindings) + |r.value.bindings|
                && totalExports == old(totalExports) + |r.value.exports|
    {
      hide ReadTable;
      var edges := TableRows(EdgeTable);
      assert TotalOf(BindingTable) == old(totalBindings) && TotalOf(ExportTable) == old(totalExports);
      if edges.Err? { return Err(edges.error); }
      var bindings := TableRows(BindingTable);
      assert TotalOf(EdgeTable) == totalEdges && TotalOf(ExportTable) == old(totalExports);
      if bindings.Err? { return Err(bindings.error); }
      var exports := TableRows(ExportTable);
      assert TotalOf(EdgeTable) == totalEdges && TotalOf(BindingTable) == totalBindings;
      if exports.Err? { return Err(exports.error); }
      r := Ok(Linkage(edges.value, bindings.value, exports.value));
    }

    method ModuleRecord(moduleId: nat) returns (r: Result<ProgramModule, ProgramDecodeError>)
      requires Valid()
      modifies this
      ensures Valid() && old(offset) <= offset
      ensures Agrees(r, ReadProgramModule(bytes, old(offset), moduleId, old(Running()), limits), offset)
      ensures r.Ok? ==> Running() == After(old(Running()), r.value)
    {
      hide ReadInteger, ReadBlob, ReadLinkage, EncodeModule, RowsFit, EncodeLinkage;
      var name := Unsigned();
      if name.Err? { return Err(name.error); }
      var code := Blob(moduleId);
      if code.Err? { return Err(code.error); }
      LinkageFitsWhenRead(bytes, offset, Running(), limits);
      LinkageIgnoresModuleBytes(bytes, offset, old(Running()), Running(), limits);
      var l := LinkageRecord();
      if l.Err? { return Err(l.error); }
      r := Ok(ProgramModule(name.value, code.value, EdgesOf(l.value.edges), BindingsOf(l.value.bindings),
                            ExportsOf(l.value.exports)));
    }
  }

  lemma LinkageFitsWhenRead(bytes: seq<byte>, at: nat, t: Totals, limits: ProgramDecodeLimits)
    ensures ReadLinkage(bytes, at, t, limits).Got? ==>
              var l := ReadLinkage(bytes, at, t, limits).value;
              RowsFit(EdgeTable, l.edges) && RowsFit(BindingTable, l.bindings) && RowsFit(ExportTable, l.exports)
  {
    if ReadLinkage(bytes, at, t, limits).Got? { LinkageSound(bytes, at, t, limits); }
  }

  lemma LinkageIgnoresModuleBytes(bytes: seq<byte>, at: nat, t: Totals, u: Totals, limits: ProgramDecodeLimits)
    requires t.edges == u.edges && t.bindings == u.bindings && t.exports == u.exports
    ensures ReadLinkage(bytes, at, t, limits) == ReadLinkage(bytes, at, u, limits)
  {}

  /** The whole envelope: header, modules in order with the totals running, and nothing after them. */
  method DecodeProgramBytes(bytes: seq<byte>, limits: ProgramDecodeLimits)
    returns (r: Result<Program, ProgramDecodeError>)
    ensures r == DecodeProgram(bytes, limits)
  {
    hide ReadInteger, ReadProgramModule, EncodeProgramModule, After, ParseMagic;
    if |bytes| > limits.maxBytes { return Err(Enveloped(0, InputLimitExceeded(limits.maxBytes, |bytes|))); }
    var decoder := new ProgramDecoder(bytes, limits);
    var preamble := Header(decoder);
    if preamble.Err? { return Err(preamble.error); }
    var entry := decoder.Unsigned();
    if entry.Err? { return Err(entry.error); }
    var n := decoder.Unsigned();
    if n.Err? { return Err(n.error); }
    if n.value > limits.maxModules {
      return Err(ProgramDecodeError(decoder.offset, OverLimit(Modules, limits.maxModules, n.value)));
    }
    var modules := ModuleList(decoder, n.value);
    if modules.Err? { return Err(modules.error); }
    if decoder.offset != |bytes| { return Err(Enveloped(decoder.offset, TrailingBytes(|bytes| - decoder.offset))); }
    r := Ok(Program(modules.value, entry.value));
  }

  method Header(decoder: ProgramDecoder) returns (r: Result<(), ProgramDecodeError>)
    requires decoder.Valid() && decoder.offset == 0
    modifies decoder`offset
    ensures decoder.Valid() && Agrees(r, ReadProgramPreamble(decoder.bytes), decoder.offset)
  {
    for k := 0 to |PROGRAM_MAGIC|
      invariant decoder.Valid()
      invariant ParseMagic(decoder.bytes, 0, PROGRAM_MAGIC)
                == ParseMagic(decoder.bytes, decoder.offset, PROGRAM_MAGIC[k..])
    {
      var at := decoder.offset;
      var b := decoder.Byte();
      assert PROGRAM_MAGIC[k..][0] == PROGRAM_MAGIC[k] && PROGRAM_MAGIC[k..][1..] == PROGRAM_MAGIC[k + 1..];
      if b.Err? { return Err(b.error); }
      if b.value != PROGRAM_MAGIC[k] { return Err(Enveloped(at, BadMagic(PROGRAM_MAGIC[k], b.value))); }
    }
    assert PROGRAM_MAGIC[|PROGRAM_MAGIC|..] == [];
    var at := decoder.offset;
    var version := decoder.Byte();
    if version.Err? { return Err(version.error); }
    if version.value != PROGRAM_VERSION { return Err(Enveloped(at, UnsupportedVersion(version.value))); }
    r := Ok(());
  }

  method ModuleList(decoder: ProgramDecoder, n: nat) returns (r: Result<seq<ProgramModule>, ProgramDecodeError>)
    requires decoder.Valid() && decoder.Running() == NONE_YET
    modifies decoder
    ensures decoder.Valid()
    ensures Agrees(r, ReadProgramModules(decoder.bytes, old(decoder.offset), 0, n, NONE_YET, decoder.limits),
                   decoder.offset)
  {
    hide ReadProgramModule, After;
    ghost var bytes, limits := decoder.bytes, decoder.limits;
    var modules: seq<ProgramModule> := [];
    PrependNone(ReadProgramModules(bytes, decoder.offset, 0, n, NONE_YET, limits));
    for i := 0 to n
      invariant decoder.Valid() && decoder.bytes == bytes && decoder.limits == limits
      invariant ReadProgramModules(bytes, old(decoder.offset), 0, n, NONE_YET, limits)
                == Prepend(modules, ReadProgramModules(bytes, decoder.offset, i, n - i, decoder.Running(), limits))
    {
      var m := decoder.ModuleRecord(i);
      if m.Err? { return Err(m.error); }
      ghost var rest := ReadProgramModules(bytes, decoder.offset, i + 1, n - i - 1, decoder.Running(), limits);
      PrependTwice(modules, m.value, rest);
      modules := modules + [m.value];
    }
    assert modules + [] == modules;
    r := Ok(modules);
  }
}
