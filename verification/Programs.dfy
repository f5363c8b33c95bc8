/** Programs: modules with their linkage tables. */
module Programs {
  import opened Base
  import opened Instructions
  import opened Bytecode

  type ModuleId = U32
  type EdgeId = U32
  type BindingId = U32

  datatype EdgeTarget = Local(moduleId: ModuleId) | External

  datatype EdgeKind = Static | Dynamic | StaticAndDynamic

  predicate HasStatic(k: EdgeKind) {
    k != Dynamic
  }

  predicate HasDynamic(k: EdgeKind) {
    k != Static
  }

  function Union(a: EdgeKind, b: EdgeKind): EdgeKind {
    if a == b then a else StaticAndDynamic
  }

  /** A kind is its two capabilities: it has at least one, they determine it, and union joins them. */
  lemma KindIsCapabilities(a: EdgeKind, b: EdgeKind)
    ensures HasStatic(a) || HasDynamic(a)
    ensures HasStatic(a) == HasStatic(b) && HasDynamic(a) == HasDynamic(b) ==> a == b
    ensures HasStatic(Union(a, b)) == (HasStatic(a) || HasStatic(b))
    ensures HasDynamic(Union(a, b)) == (HasDynamic(a) || HasDynamic(b))
  {}

  datatype Edge = Edge(specifier: ConstantId, target: EdgeTarget, kind: EdgeKind)

  datatype BindingKind = Hoisted | Lexical | Imported(edge: EdgeId, name: ConstantId) | Namespace(edge: EdgeId)

  datatype Binding = Binding(name: ConstantId, kind: BindingKind)

  datatype ExportSource = FromBinding(binding: BindingId) | Indirect(edge: EdgeId, name: ConstantId)

  datatype Export = Export(name: ConstantId, source: ExportSource)

  datatype ProgramModule = ProgramModule(
    name: ConstantId,
    code: Module,
    edges: seq<Edge>,
    bindings: seq<Binding>,
    exports: seq<Export>)

  datatype Program = Program(modules: seq<ProgramModule>, entry: ModuleId)

  /** The string constant with this index, if it is one. */
  function StringAt(m: Module, id: nat): Option<EcmaString> {
    if id < |m.constants| && m.constants[id].Text? then Some(m.constants[id].units) else None
  }

  /** A verified export resolution: a binding cell, or a name of an external module. */
  datatype ResolvedExport =
    | ResolvedLocal(moduleId: nat, binding: BindingId)
    | ResolvedExternal(moduleId: nat, edge: EdgeId, name: ConstantId)
}
