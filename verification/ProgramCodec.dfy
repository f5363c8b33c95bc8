/** Linkage tables on the wire. Edges, bindings and exports share one row shape: a constant index, a tag
    byte that fixes how many integers follow, and for edges one more byte for the edge kind.
 */
module ProgramCodec {
  import opened Base
  import opened Wire
  import opened Codec
  import opened Programs

  datatype ProgramQuantity = Modules | ModuleBytes | TotalModuleBytes | Rows(table: Table) | TotalRows(table: Table)

  datatype ProgramDecodeErrorKind =
    | Envelope(kind: DecodeErrorKind)
    | InvalidTag(table: Table, tag: byte)
    | InvalidEdgeKind(tag: byte)
    | OverLimit(quantity: ProgramQuantity, max: nat, actual: nat)
    | InModule(moduleId: nat, error: DecodeError)

  datatype ProgramDecodeError = ProgramDecodeError(offset: nat, kind: ProgramDecodeErrorKind)

  type Read<+T> = Outcome<T, ProgramDecodeError>

  function Enveloped(at: nat, kind: DecodeErrorKind): ProgramDecodeError {
    ProgramDecodeError(at, Envelope(kind))
  }

  // ---- bytes and integers

  function ReadByte(bytes: seq<byte>, at: nat): Read<byte> {
    if at < |bytes| then Got(bytes[at], at + 1) else Bad(Enveloped(at, EndOfInput))
  }

  lemma ReadByteExact(bytes: seq<byte>, at: nat, b: byte, next: nat)
    ensures ReadByte(bytes, at) == Got(b, next) <==> Occurs(bytes, at, [b], next)
  {
    if Occurs(bytes, at, [b], next) { assert bytes[at] == bytes[at..next][0]; }
  }

  /** Every integer error, end of input included, is reported at the integer's start. */
  function ReadInteger(bytes: seq<byte>, at: nat): Read<U32> {
    match ReadLeb(bytes, at)
    case LebOk(n, next) => Got(n, next)
    case LebErr(UnexpectedEof, _) => Bad(Enveloped(at, EndOfInput))
    case LebErr(IntegerOverflow, _) => Bad(Enveloped(at, IntegerTooWide))
    case LebErr(NonCanonicalInteger, _) => Bad(Enveloped(at, OverlongInteger))
  }

  lemma ReadIntegerExact(bytes: seq<byte>, at: nat, n: nat, next: nat)
    ensures n < U32_LIMIT ==> (ReadInteger(bytes, at) == Got(n, next) <==> Occurs(bytes, at, Leb(n), next))
    ensures ReadInteger(bytes, at).Got? ==>
              var r := ReadInteger(bytes, at); Occurs(bytes, at, Leb(r.value), r.next)
  {
    LebExact(bytes, at, n, next);
  }

  function ReadIntegers(bytes: seq<byte>, at: nat, k: nat): Read<seq<U32>>
    decreases k
  {
    if k == 0 then Got([], at)
    else
      match ReadInteger(bytes, at)
      case Bad(e) => Bad(e)
      case Got(n, middle) =>
        match ReadIntegers(bytes, middle, k - 1)
        case Bad(e) => Bad(e)
        case Got(ns, next) => Got([n] + ns, next)
  }

  lemma {:induction false} ReadIntegersSound(bytes: seq<byte>, at: nat, k: nat)
    requires at <= |bytes| && ReadIntegers(bytes, at, k).Got?
    ensures var r := ReadIntegers(bytes, at, k); |r.value| == k && Occurs(bytes, at, EncodeIntegers(r.value), r.next)
    decreases k
  {
    hide ReadInteger, Leb;
    if k > 0 {
      var r, first := ReadIntegers(bytes, at, k), ReadInteger(bytes, at);
      ReadIntegerExact(bytes, at, first.value, first.next);
      ReadIntegersSound(bytes, first.next, k - 1);
      assert r.value[1..] == ReadIntegers(bytes, first.next, k - 1).value;
      OccursConcat(bytes, at, Leb(first.value), EncodeIntegers(r.value[1..]), r.next);
    }
  }

  lemma {:induction false} ReadIntegersComplete(bytes: seq<byte>, at: nat, ns: seq<U32>, next: nat)
    requires Occurs(bytes, at, EncodeIntegers(ns), next)
    ensures ReadIntegers(bytes, at, |ns|) == Got(ns, next)
    decreases |ns|
  {
    hide ReadInteger, Leb;
    if ns != [] {
      var middle := at + |Leb(ns[0])|;
      OccursConcat(bytes, at, Leb(ns[0]), EncodeIntegers(ns[1..]), next);
      ReadIntegerExact(bytes, at, ns[0], middle);
      ReadIntegersComplete(bytes, middle, ns[1..], next);
      assert ns == [ns[0]] + ns[1..];
    }
  }

  // ---- rows

  datatype Table = EdgeTable | BindingTable | ExportTable

  /** One row: `tail` is the edge kind, zero in the other tables. */
  datatype Row = Row(name: U32, tag: byte, args: seq<U32>, tail: byte)

  /** How many integers a tag takes, if it is a tag of the table. */
  function Arity(t: Table, tag: byte): Option<nat> {
    match t
    case EdgeTable => if tag == 0 then Some(1) else if tag == 1 then Some(0) else None
    case BindingTable => if tag <= 1 then Some(0) else if tag == 2 then Some(2) else if tag == 3 then Some(1) else None
    case ExportTable => if tag == 0 then Some(1) else if tag == 1 then Some(2) else None
  }

  predicate RowFits(t: Table, r: Row) {
    Arity(t, r.tag) == Some(|r.args|) && r.tail < (if t.EdgeTable? then 3 else 1)
  }

  function TailBytes(t: Table, tail: byte): seq<byte> {
    if t.EdgeTable? then [tail] else []
  }

  function EncodeRow(t: Table, r: Row): (e: seq<byte>)
    ensures |e| >= 1
  {
    Leb(r.name) + ([r.tag] + (EncodeIntegers(r.args) + TailBytes(t, r.tail)))
  }

  function ReadTag(bytes: seq<byte>, at: nat, t: Table): Read<byte> {
    match ReadByte(bytes, at)
    case Bad(e) => Bad(e)
    case Got(tag, next) =>
      if Arity(t, tag).None? then Bad(ProgramDecodeError(at, InvalidTag(t, tag))) else Got(tag, next)
  }

  function ReadTail(bytes: seq<byte>, at: nat, t: Table): Read<byte> {
    if !t.EdgeTable? then Got(0, at)
    else
      match ReadByte(bytes, at)
      case Bad(e) => Bad(e)
      case Got(kind, next) => if kind < 3 then Got(kind, next) else Bad(ProgramDecodeError(at, InvalidEdgeKind(kind)))
  }

  function ReadRow(bytes: seq<byte>, at: nat, t: Table): Read<Row> {
    match ReadInteger(bytes, at)
    case Bad(e) => Bad(e)
    case Got(name, a) =>
      match ReadTag(bytes, a, t)
      case Bad(e) => Bad(e)
      case Got(tag, b) =>
        match ReadIntegers(bytes, b, if Arity(t, tag).Some? then Arity(t, tag).value else 0)
        case Bad(e) => Bad(e)
        case Got(args, c) =>
          match ReadTail(bytes, c, t)
          case Bad(e) => Bad(e)
          case Got(tail, next) => Got(Row(name, tag, args, tail), next)
  }

  lemma ReadTagExact(bytes: seq<byte>, at: nat, t: Table, tag: byte, next: nat)
    ensures ReadTag(bytes, at, t) == Got(tag, next) <==> Arity(t, tag).Some? && Occurs(bytes, at, [tag], next)
  {
    ReadByteExact(bytes, at, tag, next);
  }

  lemma ReadTailExact(bytes: seq<byte>, at: nat, t: Table, tail: byte, next: nat)
    requires at <= |bytes|
    ensures ReadTail(bytes, at, t) == Got(tail, next) <==>
            tail < (if t.EdgeTable? then 3 else 1) && Occurs(bytes, at, TailBytes(t, tail), next)
  {
    ReadByteExact(bytes, at, tail, next);
  }

  lemma RowSound(bytes: seq<byte>, at: nat, t: Table)
    requires ReadRow(bytes, at, t).Got?
    ensures var r := ReadRow(bytes, at, t); RowFits(t, r.value) && Occurs(bytes, at, EncodeRow(t, r.value), r.next)
  {
    hide ReadInteger, Leb, ReadTag, ReadIntegers, EncodeIntegers, ReadTail, TailBytes, Arity;
    var r := ReadRow(bytes, at, t);
    var row := r.value;
    var name := ReadInteger(bytes, at);
    ReadIntegerExact(bytes, at, name.value, name.next);
    var tag := ReadTag(bytes, name.next, t);
    ReadTagExact(bytes, name.next, t, tag.value, tag.next);
    var args := ReadIntegers(bytes, tag.next, Arity(t, tag.value).value);
    ReadIntegersSound(bytes, tag.next, Arity(t, tag.value).value);
    ReadTailExact(bytes, args.next, t, row.tail, r.next);
    OccursConcat(bytes, tag.next, EncodeIntegers(row.args), TailBytes(t, row.tail), r.next);
    OccursConcat(bytes, name.next, [row.tag], EncodeIntegers(row.args) + TailBytes(t, row.tail), r.next);
    OccursConcat(bytes, at, Leb(row.name), [row.tag] + (EncodeIntegers(row.args) + TailBytes(t, row.tail)), r.next);
  }

  lemma RowComplete(bytes: seq<byte>, at: nat, t: Table, row: Row, next: nat)
    requires RowFits(t, row) && Occurs(bytes, at, EncodeRow(t, row), next)
    ensures ReadRow(bytes, at, t) == Got(row, next)
  {
    hide ReadInteger, Leb, ReadTag, ReadIntegers, EncodeIntegers, ReadTail, TailBytes, Arity;
    var args, tail := EncodeIntegers(row.args), TailBytes(t, row.tail);
    var a := at + |Leb(row.name)|;
    var b := a + 1;
    OccursConcat(bytes, at, Leb(row.name), [row.tag] + (args + tail), next);
    OccursConcat(bytes, a, [row.tag], args + tail, next);
    OccursConcat(bytes, b, args, tail, next);
    ReadIntegerExact(bytes, at, row.name, a);
    ReadTagExact(bytes, a, t, row.tag, b);
    ReadIntegersComplete(bytes, b, row.args, b + |args|);
    ReadTailExact(bytes, b + |args|, t, row.tail, next);
  }

  function EncodeRows(t: Table, rows: seq<Row>): (e: seq<byte>)
    ensures |e| >= |rows|
  {
    if rows == [] then [] else EncodeRow(t, rows[0]) + EncodeRows(t, rows[1..])
  }

  function ReadRows(bytes: seq<byte>, at: nat, t: Table, n: nat): Read<seq<Row>>
    decreases n
  {
    if n == 0 then Got([], at)
    else
      match ReadRow(bytes, at, t)
      case Bad(e) => Bad(e)
      case Got(row, middle) =>
        match ReadRows(bytes, middle, t, n - 1)
        case Bad(e) => Bad(e)
        case Got(rest, next) => Got([row] + rest, next)
  }

  predicate RowsFit(t: Table, rows: seq<Row>) {
    forall k :: 0 <= k < |rows| ==> RowFits(t, rows[k])
  }

  lemma {:induction false} RowsSound(bytes: seq<byte>, at: nat, t: Table, n: nat)
    requires at <= |bytes| && ReadRows(bytes, at, t, n).Got?
    ensures var r := ReadRows(bytes, at, t, n);
      |r.value| == n && RowsFit(t, r.value) && Occurs(bytes, at, EncodeRows(t, r.value), r.next)
    decreases n
  {
    hide ReadRow, EncodeRow, RowFits;
    if n > 0 {
      var r, first := ReadRows(bytes, at, t, n), ReadRow(bytes, at, t);
      RowSound(bytes, at, t);
      RowsSound(bytes, first.next, t, n - 1);
      assert r.value[1..] == ReadRows(bytes, first.next, t, n - 1).value;
      OccursConcat(bytes, at, EncodeRow(t, first.value), EncodeRows(t, r.value[1..]), r.next);
    }
  }

  lemma {:induction false} RowsComplete(bytes: seq<byte>, at: nat, t: Table, rows: seq<Row>, next: nat)
    requires RowsFit(t, rows) && Occurs(bytes, at, EncodeRows(t, rows), next)
    ensures ReadRows(bytes, at, t, |rows|) == Got(rows, next)
    decreases |rows|
  {
    hide ReadRow, EncodeRow, RowFits;
    if rows != [] {
      var middle := at + |EncodeRow(t, rows[0])|;
      OccursConcat(bytes, at, EncodeRow(t, rows[0]), EncodeRows(t, rows[1..]), next);
      RowComplete(bytes, at, t, rows[0], middle);
      RowsComplete(bytes, middle, t, rows[1..], next);
      assert rows == [rows[0]] + rows[1..];
    }
  }

  // ---- a whole table

  function EncodeTable(t: Table, rows: seq<Row>): seq<byte> {
    LebLength(|rows|) + EncodeRows(t, rows)
  }

  /** A row count bounded per module and, with the rows of earlier modules, in total. */
  function ReadTable(bytes: seq<byte>, at: nat, t: Table, max: U32, total: nat, maxTotal: nat): Read<seq<Row>> {
    match ReadInteger(bytes, at)
    case Bad(e) => Bad(e)
    case Got(n, middle) =>
      if n > max then Bad(ProgramDecodeError(middle, OverLimit(Rows(t), max, n)))
      else if total + n > maxTotal then Bad(ProgramDecodeError(middle, OverLimit(TotalRows(t), maxTotal, total + n)))
      else ReadRows(bytes, middle, t, n)
  }

  predicate TableFits(t: Table, rows: seq<Row>, max: U32, total: nat, maxTotal: nat) {
    RowsFit(t, rows) && |rows| <= max && total + |rows| <= maxTotal
  }

  lemma TableSound(bytes: seq<byte>, at: nat, t: Table, max: U32, total: nat, maxTotal: nat)
    requires ReadTable(bytes, at, t, max, total, maxTotal).Got?
    ensures var r := ReadTable(bytes, at, t, max, total, maxTotal);
      TableFits(t, r.value, max, total, maxTotal) && Occurs(bytes, at, EncodeTable(t, r.value), r.next)
  {
    hide ReadInteger, Leb, ReadRows, EncodeRows, RowsFit;
    var n, r := ReadInteger(bytes, at), ReadTable(bytes, at, t, max, total, maxTotal);
    ReadIntegerExact(bytes, at, n.value, n.next);
    RowsSound(bytes, n.next, t, n.value);
    OccursConcat(bytes, at, Leb(n.value), EncodeRows(t, r.value), r.next);
  }

  lemma TableComplete(bytes: seq<byte>, at: nat, t: Table, max: U32, total: nat, maxTotal: nat, rows: seq<Row>,
                      next: nat)
    requires TableFits(t, rows, max, total, maxTotal) && Occurs(bytes, at, EncodeTable(t, rows), next)
    ensures ReadTable(bytes, at, t, max, total, maxTotal) == Got(rows, next)
  {
    hide ReadInteger, Leb, ReadRows, EncodeRows, RowsFit;
    var n := Leb(|rows|);
    OccursConcat(bytes, at, n, EncodeRows(t, rows), next);
    ReadIntegerExact(bytes, at, |rows|, at + |n|);
    RowsComplete(bytes, at + |n|, t, rows, next);
  }

  // ---- rows and the entities they stand for

  function KindByte(k: EdgeKind): byte {
    match k
    case Static => 0
    case Dynamic => 1
    case StaticAndDynamic => 2
  }

  function RowOfEdge(e: Edge): (r: Row)
    ensures RowFits(EdgeTable, r)
  {
    match e.target
    case Local(m) => Row(e.specifier, 0, [m], KindByte(e.kind))
    case External => Row(e.specifier, 1, [], KindByte(e.kind))
  }

  function EdgeOfRow(r: Row): (e: Edge)
    requires RowFits(EdgeTable, r)
    ensures RowOfEdge(e) == r
  {
    var kind := if r.tail == 0 then Static else if r.tail == 1 then Dynamic else StaticAndDynamic;
    if r.tag == 0 then assert r.args == [r.args[0]]; Edge(r.name, Local(r.args[0]), kind)
    else Edge(r.name, External, kind)
  }

  function RowOfBinding(b: Binding): (r: Row)
    ensures RowFits(BindingTable, r)
  {
    match b.kind
    case Hoisted => Row(b.name, 0, [], 0)
    case Lexical => Row(b.name, 1, [], 0)
    case Imported(edge, name) => Row(b.name, 2, [edge, name], 0)
    case Namespace(edge) => Row(b.name, 3, [edge], 0)
  }

  function BindingOfRow(r: Row): (b: Binding)
    requires RowFits(BindingTable, r)
    ensures RowOfBinding(b) == r
  {
    if r.tag == 0 then Binding(r.name, Hoisted)
    else if r.tag == 1 then Binding(r.name, Lexical)
    else if r.tag == 2 then assert r.args == [r.args[0], r.args[1]]; Binding(r.name, Imported(r.args[0], r.args[1]))
    else assert r.args == [r.args[0]]; Binding(r.name, Namespace(r.args[0]))
  }

  function RowOfExport(x: Export): (r: Row)
    ensures RowFits(ExportTable, r)
  {
    match x.source
    case FromBinding(b) => Row(x.name, 0, [b], 0)
    case Indirect(edge, name) => Row(x.name, 1, [edge, name], 0)
  }

  function ExportOfRow(r: Row): (x: Export)
    requires RowFits(ExportTable, r)
    ensures RowOfExport(x) == r
  {
    if r.tag == 0 then assert r.args == [r.args[0]]; Export(r.name, FromBinding(r.args[0]))
    else assert r.args == [r.args[0], r.args[1]]; Export(r.name, Indirect(r.args[0], r.args[1]))
  }

  lemma RowsAreEntities()
    ensures forall e: Edge :: EdgeOfRow(RowOfEdge(e)) == e
    ensures forall b: Binding :: BindingOfRow(RowOfBinding(b)) == b
    ensures forall x: Export :: ExportOfRow(RowOfExport(x)) == x
  {}

  function EdgeRows(es: seq<Edge>): (rows: seq<Row>)
    ensures |rows| == |es| && RowsFit(EdgeTable, rows)
  {
    seq(|es|, k requires 0 <= k < |es| => RowOfEdge(es[k]))
  }

  function BindingRows(bs: seq<Binding>): (rows: seq<Row>)
    ensures |rows| == |bs| && RowsFit(BindingTable, rows)
  {
    seq(|bs|, k requires 0 <= k < |bs| => RowOfBinding(bs[k]))
  }

  function ExportRows(xs: seq<Export>): (rows: seq<Row>)
    ensures |rows| == |xs| && RowsFit(ExportTable, rows)
  {
    seq(|xs|, k requires 0 <= k < |xs| => RowOfExport(xs[k]))
  }

  function EdgesOf(rows: seq<Row>): (es: seq<Edge>)
    requires RowsFit(EdgeTable, rows)
    ensures EdgeRows(es) == rows
  {
    seq(|rows|, k requires 0 <= k < |rows| && RowFits(EdgeTable, rows[k]) => EdgeOfRow(rows[k]))
  }

  function BindingsOf(rows: seq<Row>): (bs: seq<Binding>)
    requires RowsFit(BindingTable, rows)
    ensures BindingRows(bs) == rows
  {
    seq(|rows|, k requires 0 <= k < |rows| && RowFits(BindingTable, rows[k]) => BindingOfRow(rows[k]))
  }

  function ExportsOf(rows: seq<Row>): (xs: seq<Export>)
    requires RowsFit(ExportTable, rows)
    ensures ExportRows(xs) == rows
  {
    seq(|rows|, k requires 0 <= k < |rows| && RowFits(ExportTable, rows[k]) => ExportOfRow(rows[k]))
  }

  lemma EntitiesOfRows(es: seq<Edge>, bs: seq<Binding>, xs: seq<Export>)
    ensures EdgesOf(EdgeRows(es)) == es
    ensures BindingsOf(BindingRows(bs)) == bs
    ensures ExportsOf(ExportRows(xs)) == xs
  {
    RowsAreEntities();
  }
}
