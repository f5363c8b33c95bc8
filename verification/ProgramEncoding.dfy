/** The program encoder as it runs: one loop over the modules and one over each linkage table. */
module ProgramEncoding {
  import opened Base
  import opened Wire
  import opened Codec
  import opened ModuleWire
  import opened Encoding
  import opened Programs
  import opened ProgramCodec
  import opened ProgramWire

  /** A row behind an output, piece by piece. */
  lemma RowAppended(output: seq<byte>, t: Table, r: Row)
    ensures r.args == [] ==> output + EncodeRow(t, r) == output + Leb(r.name) + [r.tag] + TailBytes(t, r.tail)
    ensures |r.args| == 1 ==>
              output + EncodeRow(t, r) == output + Leb(r.name) + [r.tag] + Leb(r.args[0]) + TailBytes(t, r.tail)
    ensures |r.args| == 2 ==>
              output + EncodeRow(t, r)
              == output + Leb(r.name) + [r.tag] + Leb(r.args[0]) + Leb(r.args[1]) + TailBytes(t, r.tail)
  {
    hide Leb, TailBytes;
    if |r.args| == 1 {
      assert r.args == [r.args[0]];
      IntegersUpToTwo(r.args[0], 0);
    } else if |r.args| == 2 {
      assert r.args == [r.args[0], r.args[1]];
      IntegersUpToTwo(r.args[0], r.args[1]);
    }
  }

  method WriteEdge(e: Edge, output: seq<byte>) returns (out: seq<byte>)
    ensures out == output + EncodeRow(EdgeTable, RowOfEdge(e))
  {
    hide Leb, EncodeRow;
    RowAppended(output, EdgeTable, RowOfEdge(e));
    out := WriteU32(e.specifier, output);
    match e.target {
      case Local(m) =>
        out := out + [0];
        out := WriteU32(m, out);
      case External => out := out + [1];
    }
    out := out + [KindByte(e.kind)];
  }

  method WriteBinding(b: Binding, output: seq<byte>) returns (out: seq<byte>)
    ensures out == output + EncodeRow(BindingTable, RowOfBinding(b))
  {
    hide Leb, EncodeRow;
    RowAppended(output, BindingTable, RowOfBinding(b));
    out := WriteU32(b.name, output);
    match b.kind {
      case Hoisted => out := out + [0];
      case Lexical => out := out + [1];
      case Imported(edge, name) =>
        out := out + [2];
        out := WriteU32(edge, out);
        out := WriteU32(name, out);
      case Namespace(edge) =>
        out := out + [3];
        out := WriteU32(edge, out);
    }
    assert out + [] == out;
  }

  method WriteExport(x: Export, output: seq<byte>) returns (out: seq<byte>)
    ensures out == output + EncodeRow(ExportTable, RowOfExport(x))
  {
    hide Leb, EncodeRow;
    RowAppended(output, ExportTable, RowOfExport(x));
    out := WriteU32(x.name, output);
    match x.source {
      case FromBinding(b) =>
        out := out + [0];
        out := WriteU32(b, out);
      case Indirect(edge, name) =>
        out := out + [1];
        out := WriteU32(edge, out);
        out := WriteU32(name, out);
    }
    assert out + [] == out;
  }

  lemma IntegersUpToTwo(a: U32, b: U32)
    ensures EncodeIntegers([a]) == Leb(a)
    ensures EncodeIntegers([a, b]) == Leb(a) + Leb(b)
  {
    assert [a][1..] == [] && [b][1..] == [] && [a, b][1..] == [b];
    assert Leb(a) + [] == Leb(a) && Leb(b) + [] == Leb(b);
    assert EncodeIntegers([b]) == Leb(b);
  }

  /** Appending the next row extends the written prefix of a table by one. */
  lemma {:induction false} RowsSnoc(t: Table, rows: seq<Row>, r: Row)
    ensures EncodeRows(t, rows + [r]) == EncodeRows(t, rows) + EncodeRow(t, r)
  {
    hide EncodeRow;
    if rows == [] {
      assert ([] + [r])[1..] == [];
      assert EncodeRow(t, r) + [] == EncodeRow(t, r);
    } else {
      RowsSnoc(t, rows[1..], r);
      assert (rows + [r])[1..] == rows[1..] + [r];
    }
  }

  method WriteEdges(es: seq<Edge>, output: seq<byte>) returns (out: seq<byte>)
    ensures out == output + EncodeTable(EdgeTable, EdgeRows(es))
  {
    hide Leb, EncodeRow, RowOfEdge;
    ghost var rows := EdgeRows(es);
    out := WriteLength(|es|, output);
    ghost var start := out;
    assert rows[..0] == [] && EncodeRows(EdgeTable, []) == [];
    for k := 0 to |es|
      invariant out == start + EncodeRows(EdgeTable, rows[..k])
    {
      RowsSnoc(EdgeTable, rows[..k], rows[k]);
      assert rows[..k + 1] == rows[..k] + [rows[k]];
      out := WriteEdge(es[k], out);
    }
    assert rows[..|es|] == rows;
  }

  method WriteBindings(bs: seq<Binding>, output: seq<byte>) returns (out: seq<byte>)
    ensures out == output + EncodeTable(BindingTable, BindingRows(bs))
  {
    hide Leb, EncodeRow, RowOfBinding;
    ghost var rows := BindingRows(bs);
    out := WriteLength(|bs|, output);
    ghost var start := out;
    assert rows[..0] == [] && EncodeRows(BindingTable, []) == [];
    for k := 0 to |bs|
      invariant out == start + EncodeRows(BindingTable, rows[..k])
    {
      RowsSnoc(BindingTable, rows[..k], rows[k]);
      assert rows[..k + 1] == rows[..k] + [rows[k]];
      out := WriteBinding(bs[k], out);
    }
    assert rows[..|bs|] == rows;
  }

  method WriteExports(xs: seq<Export>, output: seq<byte>) returns (out: seq<byte>)
    ensures out == output + EncodeTable(ExportTable, ExportRows(xs))
  {
    hide Leb, EncodeRow, RowOfExport;
    ghost var rows := ExportRows(xs);
    out := WriteLength(|xs|, output);
    ghost var start := out;
    assert rows[..0] == [] && EncodeRows(ExportTable, []) == [];
    for k := 0 to |xs|
      invariant out == start + EncodeRows(ExportTable, rows[..k])
    {
      RowsSnoc(ExportTable, rows[..k], rows[k]);
      assert rows[..k + 1] == rows[..k] + [rows[k]];
      out := WriteExport(xs[k], out);
    }
    assert rows[..|xs|] == rows;
  }

  method WriteProgramModule(m: ProgramModule, output: seq<byte>) returns (out: seq<byte>)
    ensures out == output + EncodeProgramModule(m)
  {
    hide Leb, EncodeModule, EncodeTable, EdgeRows, BindingRows, ExportRows;
    var blob := WriteModule(m.code);
    out := WriteU32(m.name, output);
    out := WriteLength(|blob|, out);
    out := out + blob;
    out := WriteEdges(m.edges, out);
    out := WriteBindings(m.bindings, out);
    out := WriteExports(m.exports, out);
    assert out == output + EncodeProgramModule(m);
  }

  /** The deterministic canonical program representation. */
  method WriteProgram(p: Program) returns (out: seq<byte>)
    ensures out == EncodeProgram(p)
  {
    hide Leb, EncodeProgramModule;
    out := PROGRAM_MAGIC + [PROGRAM_VERSION];
    out := WriteU32(p.entry, out);
    out := WriteLength(|p.modules|, out);
    ghost var start, all := out, EncodeProgramModules(p.modules);
    assert p.modules[0..] == p.modules;
    for k := 0 to |p.modules|
      invariant out + EncodeProgramModules(p.modules[k..]) == start + all
    {
      ghost var was, rest := out, EncodeProgramModules(p.modules[k + 1..]);
      assert p.modules[k..][1..] == p.modules[k + 1..];
      out := WriteProgramModule(p.modules[k], out);
      assert out + rest == was + (EncodeProgramModule(p.modules[k]) + rest);
    }
    assert p.modules[|p.modules|..] == [];
    assert out + [] == out;
    assert out == EncodeProgram(p);
  }
}
