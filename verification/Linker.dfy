/** The export index and the three-colour walk that accepts exactly when every chain settles. */
module Linker {
  import opened Base
  import opened Bytecode
  import opened Programs
  import opened Exports

  // ---- the shared export index

  /** A hash index that agrees with searching the table from the front. */
  ghost predicate Indexes(m: ProgramModule, index: map<EcmaString, nat>) {
    && (forall name :: name in index <==> FindExport(m, name).Some?)
    && (forall name :: name in index ==> FindExport(m, name) == Some(index[name]))
  }

  /** Collects names to positions; a later entry would overwrite an earlier one. */
  method BuildIndex(moduleCount: nat, m: ProgramModule) returns (index: map<EcmaString, nat>)
    requires ModuleBound(moduleCount, m)
    ensures Indexes(m, index)
  {
    index := map[];
    for x := 0 to |m.exports|
      invariant forall name :: name in index ==>
                  index[name] < x && StringAt(m.code, m.exports[index[name]].name) == Some(name)
      invariant forall y :: 0 <= y < x ==> StringAt(m.code, m.exports[y].name).value in index
    {
      index := index[StringAt(m.code, m.exports[x].name).value := x];
    }
    forall name
      ensures name in index <==> FindExport(m, name).Some?
      ensures name in index ==> FindExport(m, name) == Some(index[name])
    {
      if name in index { FoundIsUnique(m, index[name], name); }
    }
  }

  ghost predicate IndexesAll(p: Program, indices: seq<map<EcmaString, nat>>) {
    |indices| == |p.modules| && forall i :: 0 <= i < |indices| ==> Indexes(p.modules[i], indices[i])
  }

  method BuildIndices(p: Program) returns (indices: seq<map<EcmaString, nat>>)
    requires Bound(p)
    ensures IndexesAll(p, indices)
  {
    indices := [];
    for i := 0 to |p.modules|
      invariant |indices| == i
      invariant forall j :: 0 <= j < i ==> Indexes(p.modules[j], indices[j])
    {
      var index := BuildIndex(|p.modules|, p.modules[i]);
      indices := indices + [index];
    }
  }

  // ---- the three-colour walk

  datatype ExportError =
    | IndirectExportCycle(node: Node)
    | MissingIndirectExport(node: Node)
    | MissingImportedExport(moduleId: nat, binding: nat)

  /** The error names an export on a real cycle, or a hop that really has no target. */
  ghost predicate ExportErrorIsReal(p: Program, e: ExportError)
    requires Bound(p)
  {
    match e
    case IndirectExportCycle(n) => IsNode(p, n) && OnCycle(p, n)
    case MissingIndirectExport(n) =>
      IsNode(p, n) && HopFrom(p, n) == Missing && p.modules[n.moduleId].exports[n.index].source.Indirect?
    case MissingImportedExport(i, b) => DanglingImport(p, i, b)
  }

  /** Binding `b` imports a name that its local target does not export. */
  predicate DanglingImport(p: Program, i: nat, b: nat)
    requires Bound(p)
  {
    && i < |p.modules| && b < |p.modules[i].bindings|
    && var m := p.modules[i];
    && m.bindings[b].kind.Imported?
    && var edge := m.edges[m.bindings[b].kind.edge];
    && edge.target.Local?
    && FindExport(p.modules[edge.target.moduleId], StringAt(m.code, m.bindings[b].kind.name).value).None?
  }

  /** Looks a followed name up in the index of its target module. */
  method LookUp(p: Program, indices: seq<map<EcmaString, nat>>, m: ProgramModule, edge: nat, name: nat)
    returns (missing: bool, next: Option<Node>)
    requires Bound(p) && IndexesAll(p, indices) && ModuleBound(|p.modules|, m)
    requires edge < |m.edges| && edge < U32_LIMIT && name < U32_LIMIT && StringAt(m.code, name).Some?
    ensures match Follow(m, edge, name)
            case Onward(target, wanted) =>
              && missing == FindExport(p.modules[target], wanted).None?
              && next == (if missing then None else Some(Node(target, FindExport(p.modules[target], wanted).value)))
            case _ => !missing && next == None
  {
    missing, next := false, None;
    match m.edges[edge].target {
      case External =>
      case Local(target) =>
        var wanted := StringAt(m.code, name).value;
        if wanted in indices[target] {
          next := Some(Node(target, indices[target][wanted]));
        } else {
          missing := true;
        }
    }
  }

  method NextExport(p: Program, indices: seq<map<EcmaString, nat>>, n: Node)
    returns (r: Result<Option<Node>, ExportError>)
    requires Bound(p) && IndexesAll(p, indices) && IsNode(p, n)
    ensures match HopFrom(p, n)
            case Leaf(_) => r == Ok(None)
            case Next(m) => r == Ok(Some(m))
            case Missing => r.Err? && ExportErrorIsReal(p, r.error) && !r.error.IndirectExportCycle?
  {
    var m := p.modules[n.moduleId];
    var missing, next := false, None;
    match m.exports[n.index].source {
      case Indirect(edge, name) =>
        missing, next := LookUp(p, indices, m, edge, name);
        if missing { return Err(MissingIndirectExport(n)); }
      case FromBinding(b) =>
        match m.bindings[b].kind {
          case Imported(edge, name) =>
            missing, next := LookUp(p, indices, m, edge, name);
            if missing { return Err(MissingImportedExport(n.moduleId, b)); }
          case _ =>
        }
    }
    r := Ok(next);
  }

  /** 0 unseen, 1 on the current chain, 2 known to end. */
  type Colours = seq<seq<int>>

  ghost predicate Palette(p: Program, states: Colours) {
    |states| == |p.modules| && forall i :: 0 <= i < |states| ==> |states[i]| == |p.modules[i].exports|
  }

  function Colour(states: Colours, n: Node): int
    requires n.moduleId < |states| && n.index < |states[n.moduleId]|
  {
    states[n.moduleId][n.index]
  }

  function Paint(states: Colours, n: Node, c: int): Colours
    requires n.moduleId < |states| && n.index < |states[n.moduleId]|
  {
    states[n.moduleId := states[n.moduleId][n.index := c]]
  }

  lemma PaintColours(p: Program, states: Colours, n: Node, c: int)
    requires Palette(p, states) && IsNode(p, n)
    ensures Palette(p, Paint(states, n, c))
    ensures forall m :: IsNode(p, m) ==> Colour(Paint(states, n, c), m) == if m == n then c else Colour(states, m)
  {}

  /** Black exports end; grey ones are exactly the chain under way. */
  ghost predicate Walked(p: Program, states: Colours, stack: seq<Node>)
    requires Bound(p)
  {
    && Palette(p, states)
    && (forall n :: IsNode(p, n) ==> 0 <= Colour(states, n) <= 2)
    && (forall n :: IsNode(p, n) && Colour(states, n) == 2 ==> Settled(p, n))
    && (forall n :: IsNode(p, n) ==> (Colour(states, n) == 1 <==> n in stack))
  }

  /** Black exports stay black. */
  ghost predicate Darkens(p: Program, was: Colours, now: Colours)
    requires Palette(p, was)
  {
    Palette(p, now) && forall n :: IsNode(p, n) && Colour(was, n) == 2 ==> Colour(now, n) == 2
  }

  lemma DarkensTwice(p: Program, a: Colours, b: Colours, c: Colours)
    requires Palette(p, a) && Darkens(p, a, b) && Darkens(p, b, c)
    ensures Darkens(p, a, c)
  {}

  ghost function White(p: Program, states: Colours): set<Node>
    requires Palette(p, states)
  {
    set n | n in AllNodes(p) && Colour(states, n) == 0
  }

  /** Each entry hops to the next one. */
  ghost predicate Chained(p: Program, stack: seq<Node>)
    requires Bound(p)
  {
    && (forall i :: 0 <= i < |stack| ==> IsNode(p, stack[i]))
    && (forall i :: 0 < i < |stack| ==> HopFrom(p, stack[i - 1]) == Next(stack[i]))
  }

  lemma {:induction false} ChainReturns(p: Program, stack: seq<Node>, i: nat, n: Node)
    requires Bound(p) && Chained(p, stack) && i < |stack|
    requires HopFrom(p, stack[|stack| - 1]) == Next(n)
    ensures Path(p, stack[i], |stack| - i, n)
    decreases |stack| - i
  {
    hide Bound, RedirectOf, FindExport, HopFrom;
    if i + 1 < |stack| {
      ChainReturns(p, stack, i + 1, n);
      assert HopFrom(p, stack[i]) == Next(stack[i + 1]);
    } else {
      assert Path(p, n, 0, n);
    }
  }

  lemma HopSettles(p: Program, n: Node, m: Node)
    requires Bound(p) && IsNode(p, n) && HopFrom(p, n) == Next(m) && Settled(p, m)
    ensures Settled(p, n)
  {
    var k: nat, leaf :| Settles(p, m, k, leaf);
    assert Settles(p, n, k + 1, leaf);
  }

  lemma LeafSettles(p: Program, n: Node)
    requires Bound(p) && IsNode(p, n) && HopFrom(p, n).Leaf?
    ensures Settled(p, n)
  {
    assert Settles(p, n, 0, HopFrom(p, n).resolved);
  }

  lemma MissingNeverSettles(p: Program, n: Node)
    requires Bound(p) && IsNode(p, n) && HopFrom(p, n).Missing?
    ensures !Settled(p, n)
  {}

  lemma {:induction false} ChainSettles(p: Program, stack: seq<Node>)
    requires Bound(p) && Chained(p, stack)
    requires stack != [] ==> Settled(p, stack[|stack| - 1])
    ensures forall i :: 0 <= i < |stack| ==> Settled(p, stack[i])
    decreases |stack|
  {
    if |stack| > 1 {
      var shorter := stack[..|stack| - 1];
      assert HopFrom(p, shorter[|shorter| - 1]) == Next(stack[|stack| - 1]) by {
        assert shorter[|shorter| - 1] == stack[|stack| - 2];
      }
      HopSettles(p, shorter[|shorter| - 1], stack[|stack| - 1]);
      ChainSettles(p, shorter);
      assert forall i :: 0 <= i < |shorter| ==> stack[i] == shorter[i];
    }
  }

  /** Marks a chain that ends as ended. */
  method Blacken(p: Program, states: Colours, stack: seq<Node>) returns (out: Colours)
    requires Bound(p) && Walked(p, states, stack)
    requires forall i :: 0 <= i < |stack| ==> IsNode(p, stack[i]) && Settled(p, stack[i])
    ensures Walked(p, out, []) && Darkens(p, states, out)
    ensures forall i :: 0 <= i < |stack| ==> Colour(out, stack[i]) == 2
    ensures forall n :: IsNode(p, n) && n !in stack ==> Colour(out, n) == Colour(states, n)
  {
    hide Settled, Bound, Paint;
    out := states;
    for i := 0 to |stack|
      invariant Palette(p, out)
      invariant forall n :: IsNode(p, n) ==> Colour(out, n) == (if n in stack[..i] then 2 else Colour(states, n))
    {
      PaintColours(p, out, stack[i], 2);
      out := Paint(out, stack[i], 2);
      PrefixMembers(stack, i);
    }
    assert stack[..|stack|] == stack;
    BlackenedWalked(p, states, stack, out);
  }

  lemma PrefixMembers(stack: seq<Node>, i: nat)
    requires i < |stack|
    ensures forall n :: n in stack[..i + 1] <==> n in stack[..i] || n == stack[i]
  {
    assert stack[..i + 1] == stack[..i] + [stack[i]];
  }

  lemma BlackenedWalked(p: Program, states: Colours, stack: seq<Node>, out: Colours)
    requires Bound(p) && Walked(p, states, stack) && Palette(p, out)
    requires forall i :: 0 <= i < |stack| ==> IsNode(p, stack[i]) && Settled(p, stack[i])
    requires forall n :: IsNode(p, n) ==> Colour(out, n) == (if n in stack then 2 else Colour(states, n))
    ensures Walked(p, out, []) && Darkens(p, states, out)
    ensures forall i :: 0 <= i < |stack| ==> Colour(out, stack[i]) == 2
  {
    hide Settled, Bound;
  }

  lemma GreyWalked(p: Program, states: Colours, stack: seq<Node>, n: Node)
    requires Bound(p) && Walked(p, states, stack) && IsNode(p, n) && Colour(states, n) == 0
    ensures Walked(p, Paint(states, n, 1), stack + [n])
    ensures Darkens(p, states, Paint(states, n, 1))
    ensures White(p, Paint(states, n, 1)) < White(p, states)
  {
    PaintColours(p, states, n, 1);
    assert forall m :: m in stack + [n] <==> m in stack || m == n;
    assert n in White(p, states) && n !in White(p, Paint(states, n, 1));
  }

  lemma PushChained(p: Program, stack: seq<Node>, n: Node)
    requires Bound(p) && Chained(p, stack) && IsNode(p, n)
    requires stack != [] ==> HopFrom(p, stack[|stack| - 1]) == Next(n)
    ensures Chained(p, stack + [n])
  {
    hide Bound, RedirectOf, FindExport, HopFrom;
  }

  /** What one step of the walk found. */
  datatype StepResult = Ends | Continues(node: Node) | Fails(error: ExportError)

  ghost predicate StepIsRight(p: Program, current: Node, r: StepResult)
    requires Bound(p) && IsNode(p, current)
  {
    match r
    case Ends => Settled(p, current)
    case Continues(n) => IsNode(p, n) && HopFrom(p, current) == Next(n)
    case Fails(e) => ExportErrorIsReal(p, e) && !AllSettled(p)
  }

  method Advance(p: Program, indices: seq<map<EcmaString, nat>>, current: Node) returns (r: StepResult)
    requires Bound(p) && IndexesAll(p, indices) && IsNode(p, current)
    ensures StepIsRight(p, current, r)
  {
    var next := NextExport(p, indices, current);
    match next {
      case Err(e) =>
        MissingNeverSettles(p, current);
        r := Fails(e);
      case Ok(None) =>
        LeafSettles(p, current);
        r := Ends;
      case Ok(Some(n)) =>
        r := Continues(n);
    }
  }

  /** Colours the current export grey, pushes it, and hops. */
  method StepOn(p: Program, indices: seq<map<EcmaString, nat>>, states: Colours, stack: seq<Node>, current: Node,
                ghost start: Node)
    returns (r: StepResult, out: Colours, longer: seq<Node>)
    requires Bound(p) && IndexesAll(p, indices)
    requires IsNode(p, current) && Palette(p, states) && Colour(states, current) == 0
    requires IsNode(p, start) && Underway(p, states, start, stack, current)
    ensures Palette(p, out) && White(p, out) < White(p, states)
    ensures Darkens(p, states, out)
    ensures match r
            case Ends => Ended(p, out, start, longer)
            case Continues(n) => Underway(p, out, start, longer, n)
            case Fails(e) => ExportErrorIsReal(p, e) && !AllSettled(p)
  {
    GreyWalked(p, states, stack, current);
    out := Paint(states, current, 1);
    longer := stack + [current];
    PushChained(p, stack, current);
    r := Advance(p, indices, current);
  }

  /** A walk under way: the stack is the chain from `start` to just before `current`. */
  ghost predicate Underway(p: Program, states: Colours, start: Node, stack: seq<Node>, current: Node)
    requires Bound(p)
  {
    && Walked(p, states, stack) && Chained(p, stack) && IsNode(p, current)
    && (if stack == [] then current == start
        else stack[0] == start && HopFrom(p, stack[|stack| - 1]) == Next(current))
  }

  /** A walk that has found its end: the last export pushed ends, or `start` was known to. */
  ghost predicate Ended(p: Program, states: Colours, start: Node, stack: seq<Node>)
    requires Bound(p) && IsNode(p, start)
  {
    && Walked(p, states, stack) && Chained(p, stack)
    && (if stack == [] then Colour(states, start) == 2
        else stack[0] == start && Settled(p, stack[|stack| - 1]))
  }

  lemma KnownEnds(p: Program, states: Colours, start: Node, stack: seq<Node>, current: Node)
    requires Bound(p) && IsNode(p, start) && Underway(p, states, start, stack, current)
    requires Colour(states, current) == 2
    ensures Ended(p, states, start, stack)
  {
    if stack != [] { HopSettles(p, stack[|stack| - 1], current); }
  }

  /** Follows one chain to its end, to a known export, or to an error. */
  method Trace(p: Program, indices: seq<map<EcmaString, nat>>, states: Colours, start: Node)
    returns (e: Option<ExportError>, out: Colours, stack: seq<Node>)
    requires Bound(p) && IndexesAll(p, indices) && Walked(p, states, []) && IsNode(p, start)
    ensures e.None? ==> Ended(p, out, start, stack) && Darkens(p, states, out)
    ensures e.Some? ==> ExportErrorIsReal(p, e.value) && !AllSettled(p)
  {
    e, out, stack := None, states, [];
    var current := start;
    while true
      invariant Underway(p, out, start, stack, current) && Darkens(p, states, out)
      decreases White(p, out)
    {
      if Colour(out, current) == 2 {
        KnownEnds(p, out, start, stack, current);
        return;
      }
      if Colour(out, current) == 1 {
        RevisitIsCycle(p, stack, current);
        e := Some(IndirectExportCycle(current));
        return;
      }
      var r;
      ghost var was := out;
      r, out, stack := StepOn(p, indices, out, stack, current, start);
      DarkensTwice(p, states, was, out);
      match r {
        case Fails(error) =>
          e := Some(error);
          return;
        case Ends =>
          return;
        case Continues(n) =>
          current := n;
      }
    }
  }

  /** Walks one chain and marks it as ended. */
  method Walk(p: Program, indices: seq<map<EcmaString, nat>>, states: Colours, start: Node)
    returns (e: Option<ExportError>, out: Colours)
    requires Bound(p) && IndexesAll(p, indices) && Walked(p, states, []) && IsNode(p, start)
    ensures e.None? ==> Walked(p, out, []) && Colour(out, start) == 2
    ensures e.None? ==> Darkens(p, states, out)
    ensures e.Some? ==> ExportErrorIsReal(p, e.value) && !AllSettled(p)
  {
    var stack;
    e, out, stack := Trace(p, indices, states, start);
    if e.Some? { return; }
    ChainSettles(p, stack);
    ghost var was := out;
    out := Blacken(p, out, stack);
    DarkensTwice(p, states, was, out);
  }

  lemma RevisitIsCycle(p: Program, stack: seq<Node>, current: Node)
    requires Bound(p) && Chained(p, stack) && IsNode(p, current) && current in stack
    requires stack != [] ==> HopFrom(p, stack[|stack| - 1]) == Next(current)
    ensures OnCycle(p, current) && !AllSettled(p)
  {
    var i :| 0 <= i < |stack| && stack[i] == current;
    ChainReturns(p, stack, i, current);
    CycleNeverSettles(p, current);
  }

  /** Every export's chain reaches a leaf. */
  ghost predicate AllSettled(p: Program)
    requires Bound(p)
  {
    forall n :: IsNode(p, n) ==> Settled(p, n)
  }

  /** The walk accepts exactly when every export's chain ends at a leaf; a reported cycle is a real
      cycle and a reported gap a real gap. */
  method VerifyExportResolutions(p: Program, indices: seq<map<EcmaString, nat>>) returns (e: Option<ExportError>)
    requires Bound(p) && IndexesAll(p, indices)
    ensures e.None? <==> AllSettled(p)
    ensures e.Some? ==> ExportErrorIsReal(p, e.value)
  {
    var states: Colours := Unseen(p);
    UnseenIsWalked(p);
    for i := 0 to |p.modules|
      invariant Walked(p, states, [])
      invariant BlackBefore(p, states, i, 0)
    {
      e, states := WalkModule(p, indices, states, i);
      if e.Some? { return; }
    }
    e := None;
  }

  function Unseen(p: Program): Colours {
    seq(|p.modules|, i requires 0 <= i < |p.modules| => seq(|p.modules[i].exports|, _ => 0))
  }

  lemma UnseenIsWalked(p: Program)
    requires Bound(p)
    ensures Walked(p, Unseen(p), [])
  {
    assert forall n :: IsNode(p, n) ==> Colour(Unseen(p), n) == 0;
  }

  /** Every export before position `x` of module `i` is black. */
  ghost predicate BlackBefore(p: Program, states: Colours, i: nat, x: nat)
    requires Palette(p, states)
  {
    forall n :: IsNode(p, n) && (n.moduleId < i || (n.moduleId == i && n.index < x)) ==> Colour(states, n) == 2
  }

  method WalkModule(p: Program, indices: seq<map<EcmaString, nat>>, states: Colours, i: nat)
    returns (e: Option<ExportError>, out: Colours)
    requires Bound(p) && IndexesAll(p, indices) && i < |p.modules|
    requires Walked(p, states, []) && BlackBefore(p, states, i, 0)
    ensures e.None? ==> Walked(p, out, []) && BlackBefore(p, out, i + 1, 0)
    ensures e.Some? ==> ExportErrorIsReal(p, e.value) && !AllSettled(p)
  {
    out := states;
    for x := 0 to |p.modules[i].exports|
      invariant Walked(p, out, []) && BlackBefore(p, out, i, x)
    {
      if out[i][x] != 2 {
        ghost var was := out;
        e, out := Walk(p, indices, out, Node(i, x));
        if e.Some? { return; }
        BlackKept(p, was, out, i, x);
      }
      BlackNext(p, out, i, x);
    }
    BlackModule(p, out, i);
    e := None;
  }

  lemma BlackKept(p: Program, was: Colours, now: Colours, i: nat, x: nat)
    requires Palette(p, was) && Darkens(p, was, now) && BlackBefore(p, was, i, x)
    ensures BlackBefore(p, now, i, x)
  {}

  lemma BlackNext(p: Program, states: Colours, i: nat, x: nat)
    requires Palette(p, states) && BlackBefore(p, states, i, x)
    requires IsNode(p, Node(i, x)) && Colour(states, Node(i, x)) == 2
    ensures BlackBefore(p, states, i, x + 1)
  {}

  lemma BlackModule(p: Program, states: Colours, i: nat)
    requires Palette(p, states) && i < |p.modules| && BlackBefore(p, states, i, |p.modules[i].exports|)
    ensures BlackBefore(p, states, i + 1, 0)
  {}
}
