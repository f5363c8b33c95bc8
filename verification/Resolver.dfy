/** Export resolution on linked programs, and the imported-binding check. */
module Resolver {
  import opened Base
  import opened Bytecode
  import opened Programs
  import opened Exports
  import opened Linker

  /** The leaf of the chain from `n`. */
  ghost predicate ResolvesTo(p: Program, n: Node, leaf: ResolvedExport)
    requires Bound(p) && IsNode(p, n)
  {
    exists k: nat :: Settles(p, n, k, leaf)
  }

  /** A chain has one leaf. */
  lemma ResolutionIsUnique(p: Program, n: Node, a: ResolvedExport, b: ResolvedExport)
    requires Bound(p) && IsNode(p, n) && ResolvesTo(p, n, a) && ResolvesTo(p, n, b)
    ensures a == b
  {
    var j: nat :| Settles(p, n, j, a);
    var k: nat :| Settles(p, n, k, b);
    SettlesOnce(p, n, j, a, k, b);
  }

  predicate NamesALeaf(p: Program, leaf: ResolvedExport) {
    match leaf
    case ResolvedLocal(i, b) =>
      i < |p.modules| && b < |p.modules[i].bindings| && !p.modules[i].bindings[b].kind.Imported?
    case ResolvedExternal(i, edge, name) =>
      && i < |p.modules| && edge < |p.modules[i].edges| && p.modules[i].edges[edge].target == External
      && StringAt(p.modules[i].code, name).Some?
  }

  /** What an export resolves to is a binding that is not an import, or a name behind an external edge. */
  lemma ResolutionIsALeaf(p: Program, n: Node, leaf: ResolvedExport)
    requires Bound(p) && IsNode(p, n) && ResolvesTo(p, n, leaf)
    ensures NamesALeaf(p, leaf)
  {
    hide Settles;
    var k: nat :| Settles(p, n, k, leaf);
    var last := SettlesAtLeaf(p, n, k, leaf);
    assert ModuleBound(|p.modules|, p.modules[last.moduleId]);
  }

  /** One turn of the resolver: nothing there, an answer, or a name to look up elsewhere. */
  datatype Turn = Gone | Found(resolved: ResolvedExport) | Onto(moduleId: nat, wanted: EcmaString)

  ghost predicate TurnIsHop(p: Program, n: Node, t: Turn)
    requires Bound(p) && IsNode(p, n)
  {
    match HopFrom(p, n)
    case Leaf(resolved) => t == Found(resolved)
    case Next(m) => t.Onto? && t.moduleId == m.moduleId && FindExport(p.modules[m.moduleId], t.wanted) == Some(m.index)
    case Missing =>
      t.Onto? && t.moduleId < |p.modules| && FindExport(p.modules[t.moduleId], t.wanted).None?
  }

  method TakeTurn(p: Program, moduleId: nat, name: EcmaString) returns (t: Turn)
    requires Bound(p)
    ensures moduleId >= |p.modules| ==> t.Gone?
    ensures moduleId < |p.modules| ==>
              match FindExport(p.modules[moduleId], name)
              case None => t.Gone?
              case Some(x) => TurnIsHop(p, Node(moduleId, x), t)
  {
    if moduleId >= |p.modules| { return Gone; }
    var current := p.modules[moduleId];
    var x := FindExport(current, name);
    if x.None? { return Gone; }
    match current.exports[x.value].source {
      case FromBinding(b) =>
        match current.bindings[b].kind {
          case Imported(edge, imported) =>
            match current.edges[edge].target {
              case Local(target) => t := Onto(target, StringAt(current.code, imported).value);
              case External => t := Found(ResolvedExternal(moduleId, edge, imported));
            }
          case _ => t := Found(ResolvedLocal(moduleId, b));
        }
      case Indirect(edge, indirect) =>
        match current.edges[edge].target {
          case Local(target) => t := Onto(target, StringAt(current.code, indirect).value);
          case External => t := Found(ResolvedExternal(moduleId, edge, indirect));
        }
    }
  }

  /** The resolver stands on an export whose chain has `remaining` hops left to `leaf`. */
  ghost predicate Chasing(p: Program, moduleId: nat, name: EcmaString, remaining: int, leaf: ResolvedExport)
    requires Bound(p)
  {
    && remaining >= 0
    && moduleId < |p.modules|
    && FindExport(p.modules[moduleId], name).Some?
    && Settles(p, Node(moduleId, FindExport(p.modules[moduleId], name).value), remaining, leaf)
  }

  /** Total on linked programs: an exported name resolves to the leaf of its chain, whatever modules
      the chain re-enters; any other name resolves to nothing. No visit set is kept: the bound of one
      turn per export, plus one, is never reached because the chain is known to end. */
  method ResolveExport(p: Program, moduleId: nat, name: EcmaString) returns (r: Option<ResolvedExport>)
    requires Bound(p) && AllSettled(p)
    ensures r.Some? <==> moduleId < |p.modules| && FindExport(p.modules[moduleId], name).Some?
    ensures r.Some? ==> ResolvesTo(p, Node(moduleId, FindExport(p.modules[moduleId], name).value), r.value)
    ensures r.Some? ==> NamesALeaf(p, r.value)
  {
    hide NamesALeaf, Bound, AllSettled, Settles, HopFrom, RedirectOf, Exports.FindExport, TurnIsHop;
    ghost var exported := moduleId < |p.modules| && FindExport(p.modules[moduleId], name).Some?;
    ghost var k: nat, leaf := 0, ResolvedLocal(0, 0);
    if exported {
      k, leaf := ChaseStarts(p, moduleId, name);
      ResolutionIsALeaf(p, Node(moduleId, FindExport(p.modules[moduleId], name).value), leaf);
    }
    var at, wanted := moduleId, name;
    for i := 0 to ExportCount(p.modules) + 1
      invariant exported ==> Chasing(p, at, wanted, k - i, leaf)
      invariant !exported ==> i == 0 && at == moduleId && wanted == name
    {
      var turn := TakeTurn(p, at, wanted);
      if exported { ChaseContinues(p, at, wanted, k - i, leaf, turn); }
      match turn {
        case Gone => return None;
        case Found(resolved) => return Some(resolved);
        case Onto(target, linked) => at, wanted := target, linked;
      }
    }
    assert false;
    r := None;
  }

  lemma ChaseStarts(p: Program, moduleId: nat, name: EcmaString) returns (k: nat, leaf: ResolvedExport)
    requires Bound(p) && AllSettled(p)
    requires moduleId < |p.modules| && FindExport(p.modules[moduleId], name).Some?
    ensures Chasing(p, moduleId, name, k, leaf) && k < ExportCount(p.modules)
    ensures ResolvesTo(p, Node(moduleId, FindExport(p.modules[moduleId], name).value), leaf)
  {
    var start := Node(moduleId, FindExport(p.modules[moduleId], name).value);
    assert IsNode(p, start) && Settled(p, start);
    k, leaf :| Settles(p, start, k, leaf);
    ChainIsShort(p, start, k, leaf);
  }

  lemma ChaseContinues(p: Program, at: nat, wanted: EcmaString, remaining: nat, leaf: ResolvedExport, turn: Turn)
    requires Bound(p) && Chasing(p, at, wanted, remaining, leaf)
    requires TurnIsHop(p, Node(at, FindExport(p.modules[at], wanted).value), turn)
    ensures if remaining == 0 then turn == Found(leaf)
            else turn.Onto? && Chasing(p, turn.moduleId, turn.wanted, remaining - 1, leaf)
  {}

  // ---- imported bindings

  ghost predicate NoDanglingImports(p: Program)
    requires Bound(p)
  {
    forall i, b :: 0 <= i < |p.modules| && 0 <= b < |p.modules[i].bindings| ==> !DanglingImport(p, i, b)
  }

  method VerifyImportedBindings(p: Program, indices: seq<map<EcmaString, nat>>) returns (e: Option<ExportError>)
    requires Bound(p) && IndexesAll(p, indices)
    ensures e.None? <==> NoDanglingImports(p)
    ensures e.Some? ==> e.value.MissingImportedExport? && ExportErrorIsReal(p, e.value)
  {
    for i := 0 to |p.modules|
      invariant forall j, b :: 0 <= j < i && 0 <= b < |p.modules[j].bindings| ==> !DanglingImport(p, j, b)
    {
      var m := p.modules[i];
      for b := 0 to |m.bindings|
        invariant forall c :: 0 <= c < b ==> !DanglingImport(p, i, c)
      {
        if m.bindings[b].kind.Imported? {
          var edge := m.edges[m.bindings[b].kind.edge];
          if edge.target.Local? {
            var wanted := StringAt(m.code, m.bindings[b].kind.name).value;
            if wanted !in indices[edge.target.moduleId] {
              assert DanglingImport(p, i, b);
              return Some(MissingImportedExport(i, b));
            }
          }
        }
      }
    }
    e := None;
  }

  /** Every import over a local edge resolves, through its target module, to a leaf. */
  lemma ImportsResolve(p: Program, i: nat, b: nat)
    requires Bound(p) && AllSettled(p) && NoDanglingImports(p)
    requires i < |p.modules| && b < |p.modules[i].bindings| && p.modules[i].bindings[b].kind.Imported?
    requires p.modules[i].edges[p.modules[i].bindings[b].kind.edge].target.Local?
    ensures
      var m := p.modules[i];
      var target := m.edges[m.bindings[b].kind.edge].target.moduleId;
      var found := FindExport(p.modules[target], StringAt(m.code, m.bindings[b].kind.name).value);
      found.Some? && exists leaf :: ResolvesTo(p, Node(target, found.value), leaf)
  {
    assert !DanglingImport(p, i, b);
    var m := p.modules[i];
    var target := m.edges[m.bindings[b].kind.edge].target.moduleId;
    var n := Node(target, FindExport(p.modules[target], StringAt(m.code, m.bindings[b].kind.name).value).value);
    assert IsNode(p, n) && Settled(p, n);
    var k: nat, leaf :| Settles(p, n, k, leaf);
    assert ResolvesTo(p, n, leaf);
  }
}
