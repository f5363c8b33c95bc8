/** Export linking, by definition: one hop, the chain of hops from an export, where a chain settles, and
    the pigeonhole bound on its length.
 */
module Exports {
  import opened Base
  import opened Bytecode
  import opened Programs

  // ---- one hop

  /** The references that the metadata checks have already bounded. */
  predicate ModuleBound(moduleCount: nat, m: ProgramModule) {
    && (forall e :: 0 <= e < |m.edges| && m.edges[e].target.Local? ==> m.edges[e].target.moduleId < moduleCount)
    && (forall b :: 0 <= b < |m.bindings| && m.bindings[b].kind.Imported? ==>
          m.bindings[b].kind.edge < |m.edges| && StringAt(m.code, m.bindings[b].kind.name).Some?)
    && (forall x :: 0 <= x < |m.exports| ==>
          && StringAt(m.code, m.exports[x].name).Some?
          && match m.exports[x].source
             case FromBinding(b) => b < |m.bindings|
             case Indirect(e, name) => e < |m.edges| && StringAt(m.code, name).Some?)
    && (forall x, y :: 0 <= x < y < |m.exports| ==>
          StringAt(m.code, m.exports[x].name) != StringAt(m.code, m.exports[y].name))
  }

  predicate Bound(p: Program) {
    forall i :: 0 <= i < |p.modules| ==> ModuleBound(|p.modules|, p.modules[i])
  }

  /** The export table searched from the front, as the resolver does. */
  function FindExport(m: ProgramModule, name: EcmaString, from: nat := 0): (r: Option<nat>)
    requires from <= |m.exports|
    ensures r.Some? ==> from <= r.value < |m.exports| && StringAt(m.code, m.exports[r.value].name) == Some(name)
    ensures r.Some? ==> forall x :: from <= x < r.value ==> StringAt(m.code, m.exports[x].name) != Some(name)
    ensures r.None? ==> forall x :: from <= x < |m.exports| ==> StringAt(m.code, m.exports[x].name) != Some(name)
    decreases |m.exports| - from
  {
    if from == |m.exports| then None
    else if StringAt(m.code, m.exports[from].name) == Some(name) then Some(from)
    else FindExport(m, name, from + 1)
  }

  /** Names are unique, so the entry that bears a name is the one found. */
  lemma FoundIsUnique(m: ProgramModule, x: nat, name: EcmaString)
    requires x < |m.exports| && StringAt(m.code, m.exports[x].name) == Some(name)
    requires forall x, y :: 0 <= x < y < |m.exports| ==>
               StringAt(m.code, m.exports[x].name) != StringAt(m.code, m.exports[y].name)
    ensures FindExport(m, name) == Some(x)
  {
    assert FindExport(m, name).Some?;
  }

  /** Where an export leads: a cell of its own module, an external name, or a name of another module. */
  datatype Redirect = Here(binding: BindingId) | Outside(edge: EdgeId, name: U32)
                    | Onward(target: nat, wanted: EcmaString)

  function Follow(m: ProgramModule, edge: nat, name: nat): Redirect
    requires edge < |m.edges| && edge < U32_LIMIT && name < U32_LIMIT && StringAt(m.code, name).Some?
  {
    match m.edges[edge].target
    case External => Outside(edge, name)
    case Local(target) => Onward(target, StringAt(m.code, name).value)
  }

  function RedirectOf(moduleCount: nat, m: ProgramModule, x: nat): (r: Redirect)
    requires ModuleBound(moduleCount, m) && x < |m.exports|
    ensures r.Onward? ==> r.target < moduleCount
  {
    match m.exports[x].source
    case Indirect(edge, name) => Follow(m, edge, name)
    case FromBinding(b) =>
      match m.bindings[b].kind
      case Imported(edge, name) => Follow(m, edge, name)
      case _ => Here(b)
  }

  /** An export, identified by module and position. */
  datatype Node = Node(moduleId: nat, index: nat)

  predicate IsNode(p: Program, n: Node) {
    n.moduleId < |p.modules| && n.index < |p.modules[n.moduleId].exports|
  }

  datatype Hop = Leaf(resolved: ResolvedExport) | Next(node: Node) | Missing

  function HopFrom(p: Program, n: Node): (h: Hop)
    requires Bound(p) && IsNode(p, n)
    ensures h.Next? ==> IsNode(p, h.node)
  {
    match RedirectOf(|p.modules|, p.modules[n.moduleId], n.index)
    case Here(b) => Leaf(ResolvedLocal(n.moduleId, b))
    case Outside(edge, name) => Leaf(ResolvedExternal(n.moduleId, edge, name))
    case Onward(target, wanted) =>
      match FindExport(p.modules[target], wanted)
      case None => Missing
      case Some(x) => Next(Node(target, x))
  }

  /** The edge and the name an export passes on to: its own, or those of the import it exports. */
  predicate GoesThrough(m: ProgramModule, x: nat, edge: EdgeId, name: U32)
    requires x < |m.exports|
  {
    match m.exports[x].source
    case Indirect(e, wanted) => edge == e && name == wanted
    case FromBinding(b) => b < |m.bindings| && m.bindings[b].kind == Imported(edge, name)
  }

  /** Export `k` is the one `n` passes on to: over a local edge to its module, under its name. */
  ghost predicate RefersTo(p: Program, n: Node, k: Node)
    requires IsNode(p, n) && IsNode(p, k)
  {
    var m, target := p.modules[n.moduleId], p.modules[k.moduleId];
    exists edge: EdgeId, name: U32 ::
      && GoesThrough(m, n.index, edge, name)
      && edge < |m.edges| && m.edges[edge].target.Local? && m.edges[edge].target.moduleId == k.moduleId
      && StringAt(m.code, name) == StringAt(target.code, target.exports[k.index].name)
  }

  /** What a leaf is: a binding of the module that is not an import, or a name behind an external edge. */
  predicate IsLeaf(p: Program, n: Node, leaf: ResolvedExport)
    requires IsNode(p, n)
  {
    var m := p.modules[n.moduleId];
    match leaf
    case ResolvedLocal(i, b) =>
      && i == n.moduleId && m.exports[n.index].source == FromBinding(b)
      && b < |m.bindings| && !m.bindings[b].kind.Imported?
    case ResolvedExternal(i, edge, name) =>
      && i == n.moduleId && GoesThrough(m, n.index, edge, name)
      && edge < |m.edges| && m.edges[edge].target == External
  }

  /** The hop is what the tables say: on to the export referred to, or to a leaf, or to nothing. */
  lemma HopMeans(p: Program, n: Node)
    requires Bound(p) && IsNode(p, n)
    ensures forall k :: IsNode(p, k) ==> (HopFrom(p, n) == Next(k) <==> RefersTo(p, n, k))
    ensures forall leaf :: HopFrom(p, n) == Leaf(leaf) <==> IsLeaf(p, n, leaf)
  {
    var m := p.modules[n.moduleId];
    assert ModuleBound(|p.modules|, m);
    forall k | IsNode(p, k)
      ensures HopFrom(p, n) == Next(k) <==> RefersTo(p, n, k)
    {
      HopIsReference(p, n, k);
    }
  }

  lemma HopIsReference(p: Program, n: Node, k: Node)
    requires Bound(p) && IsNode(p, n) && IsNode(p, k)
    ensures HopFrom(p, n) == Next(k) <==> RefersTo(p, n, k)
  {
    var m, target := p.modules[n.moduleId], p.modules[k.moduleId];
    assert ModuleBound(|p.modules|, m) && ModuleBound(|p.modules|, target);
    var wanted := StringAt(target.code, target.exports[k.index].name).value;
    FoundIsUnique(target, k.index, wanted);
    match m.exports[n.index].source
    case Indirect(edge, name) =>
      assert GoesThrough(m, n.index, edge, name);
    case FromBinding(b) =>
      if m.bindings[b].kind.Imported? {
        assert GoesThrough(m, n.index, m.bindings[b].kind.edge, m.bindings[b].kind.name);
      }
  }

  // ---- chains

  /** The chain from `n` reaches `leaf` after exactly `k` hops. */
  ghost predicate Settles(p: Program, n: Node, k: nat, leaf: ResolvedExport)
    requires Bound(p) && IsNode(p, n)
    decreases k
  {
    match HopFrom(p, n)
    case Leaf(resolved) => k == 0 && resolved == leaf
    case Next(m) => k > 0 && Settles(p, m, k - 1, leaf)
    case Missing => false
  }

  /** A chain that settles after `k` hops does so at an export whose leaf it is. */
  lemma {:induction false} SettlesAtLeaf(p: Program, n: Node, k: nat, leaf: ResolvedExport) returns (last: Node)
    requires Bound(p) && IsNode(p, n) && Settles(p, n, k, leaf)
    ensures IsNode(p, last) && Path(p, n, k, last) && IsLeaf(p, last, leaf)
    decreases k
  {
    hide Bound, IsLeaf, RefersTo;
    HopMeans(p, n);
    hide HopFrom;
    if k == 0 {
      last := n;
    } else {
      last := SettlesAtLeaf(p, HopFrom(p, n).node, k - 1, leaf);
    }
  }

  ghost predicate Settled(p: Program, n: Node)
    requires Bound(p) && IsNode(p, n)
  {
    exists k: nat, leaf :: Settles(p, n, k, leaf)
  }

  /** `j` hops lead from `n` to `m`. */
  ghost predicate Path(p: Program, n: Node, j: nat, m: Node)
    requires Bound(p) && IsNode(p, n)
    decreases j
  {
    if j == 0 then n == m
    else HopFrom(p, n).Next? && Path(p, HopFrom(p, n).node, j - 1, m)
  }

  /** The chain from `n` comes back to `n`. */
  ghost predicate OnCycle(p: Program, n: Node)
    requires Bound(p) && IsNode(p, n)
  {
    exists j: nat :: j > 0 && Path(p, n, j, n)
  }

  lemma {:induction false} SettlesOnce(p: Program, n: Node, j: nat, a: ResolvedExport, k: nat, b: ResolvedExport)
    requires Bound(p) && IsNode(p, n) && Settles(p, n, j, a) && Settles(p, n, k, b)
    ensures j == k && a == b
    decreases j
  {
    if HopFrom(p, n).Next? {
      SettlesOnce(p, HopFrom(p, n).node, j - 1, a, k - 1, b);
    }
  }

  lemma {:induction false} PathTowardsLeaf(p: Program, n: Node, j: nat, m: Node, k: nat, leaf: ResolvedExport)
    requires Bound(p) && IsNode(p, n) && Path(p, n, j, m) && Settles(p, n, k, leaf)
    ensures IsNode(p, m) && j <= k && Settles(p, m, k - j, leaf)
    decreases j
  {
    hide RedirectOf, FindExport, HopFrom, Bound;
    if j > 0 {
      PathTowardsLeaf(p, HopFrom(p, n).node, j - 1, m, k - 1, leaf);
    }
  }

  lemma CycleNeverSettles(p: Program, n: Node)
    requires Bound(p) && IsNode(p, n) && OnCycle(p, n)
    ensures !Settled(p, n)
  {
    if Settled(p, n) {
      var k: nat, leaf :| Settles(p, n, k, leaf);
      var j: nat :| j > 0 && Path(p, n, j, n);
      PathTowardsLeaf(p, n, j, n, k, leaf);
      SettlesOnce(p, n, k, leaf, k - j, leaf);
    }
  }

  // ---- counting: a chain visits each export at most once

  ghost function NodesOfModule(p: Program, i: nat): (s: set<Node>)
    requires i < |p.modules|
    ensures forall n :: n in s <==> n.moduleId == i && IsNode(p, n)
    ensures |s| == |p.modules[i].exports|
  {
    NodesBelow(p, i, |p.modules[i].exports|)
  }

  ghost function NodesBelow(p: Program, i: nat, x: nat): (s: set<Node>)
    requires i < |p.modules| && x <= |p.modules[i].exports|
    ensures forall n :: n in s <==> n.moduleId == i && n.index < x
    ensures |s| == x
  {
    if x == 0 then {} else NodesBelow(p, i, x - 1) + {Node(i, x - 1)}
  }

  function ExportCount(modules: seq<ProgramModule>): nat {
    if modules == [] then 0 else ExportCount(modules[..|modules| - 1]) + |modules[|modules| - 1].exports|
  }

  /** The exports of the first `i` modules. */
  ghost function NodesUpTo(p: Program, i: nat): (s: set<Node>)
    requires i <= |p.modules|
    ensures forall n :: n in s <==> n.moduleId < i && IsNode(p, n)
  {
    if i == 0 then {} else NodesUpTo(p, i - 1) + NodesOfModule(p, i - 1)
  }

  lemma {:induction false} NodesCount(p: Program, i: nat)
    requires i <= |p.modules|
    ensures |NodesUpTo(p, i)| == ExportCount(p.modules[..i])
  {
    hide IsNode, NodesOfModule, ExportCount, NodesUpTo;
    if i > 0 {
      NodesCount(p, i - 1);
      NodesNext(p, i - 1);
      ExportCountNext(p.modules, i - 1);
      DisjointUnion(NodesUpTo(p, i - 1), NodesOfModule(p, i - 1));
    } else {
      NodesNext(p, 0);
      ExportCountNext(p.modules, 0);
    }
  }

  lemma NodesNext(p: Program, i: nat)
    requires i <= |p.modules|
    ensures NodesUpTo(p, 0) == {}
    ensures i < |p.modules| ==> NodesUpTo(p, i + 1) == NodesUpTo(p, i) + NodesOfModule(p, i)
  {}

  lemma ExportCountNext(modules: seq<ProgramModule>, i: nat)
    requires i <= |modules|
    ensures ExportCount(modules[..0]) == 0
    ensures i < |modules| ==> ExportCount(modules[..i + 1]) == ExportCount(modules[..i]) + |modules[i].exports|
  {
    if i < |modules| { assert modules[..i + 1][..i] == modules[..i]; }
  }

  lemma DisjointUnion(a: set<Node>, b: set<Node>)
    requires forall n :: n in a && n in b ==> false
    ensures |a + b| == |a| + |b|
  {
    assert a !! b;
  }

  ghost function AllNodes(p: Program): (s: set<Node>)
    ensures forall n :: n in s <==> IsNode(p, n)
    ensures |s| == ExportCount(p.modules)
  {
    assert p.modules[..|p.modules|] == p.modules;
    NodesCount(p, |p.modules|);
    NodesUpTo(p, |p.modules|)
  }

  ghost predicate SettlesWithin(p: Program, n: Node, k: nat, leaf: ResolvedExport)
    requires Bound(p)
  {
    IsNode(p, n) && exists j: nat :: j <= k && Settles(p, n, j, leaf)
  }

  /** The exports a settling chain goes through: one more than its hops, all different. */
  lemma {:induction false} ChainIsInjective(p: Program, n: Node, k: nat, leaf: ResolvedExport)
    returns (trail: set<Node>)
    requires Bound(p) && IsNode(p, n) && Settles(p, n, k, leaf)
    ensures |trail| == k + 1
    ensures forall m :: m in trail ==> SettlesWithin(p, m, k, leaf)
    decreases k
  {
    assert SettlesWithin(p, n, k, leaf);
    if k == 0 {
      trail := {n};
    } else {
      var rest := ChainIsInjective(p, HopFrom(p, n).node, k - 1, leaf);
      assert n !in rest by {
        if SettlesWithin(p, n, k - 1, leaf) {
          var j: nat :| j <= k - 1 && Settles(p, n, j, leaf);
          SettlesOnce(p, n, j, leaf, k, leaf);
        }
      }
      forall m | m in rest ensures SettlesWithin(p, m, k, leaf) { WithinGrows(p, m, k, leaf); }
      trail := rest + {n};
    }
  }

  lemma WithinGrows(p: Program, n: Node, k: nat, leaf: ResolvedExport)
    requires Bound(p) && k > 0 && SettlesWithin(p, n, k - 1, leaf)
    ensures SettlesWithin(p, n, k, leaf)
  {
    var j: nat :| j <= k - 1 && Settles(p, n, j, leaf);
    assert j <= k && Settles(p, n, j, leaf);
  }

  /** Pigeonhole: a chain that settles does so in fewer hops than there are exports. */
  lemma ChainIsShort(p: Program, n: Node, k: nat, leaf: ResolvedExport)
    requires Bound(p) && IsNode(p, n) && Settles(p, n, k, leaf)
    ensures k < ExportCount(p.modules)
  {
    var trail := ChainIsInjective(p, n, k, leaf);
    SubsetSize(trail, AllNodes(p));
  }
}
