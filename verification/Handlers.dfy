/** Exception-handler ranges: the sort-and-stack sweep and the pairwise statement it decides. */
module Handlers {
  import opened Base
  import opened Bytecode

  predicate Disjoint(a: ExceptionHandler, b: ExceptionHandler) {
    a.end <= b.start || b.end <= a.start
  }

  predicate Inside(a: ExceptionHandler, b: ExceptionHandler) {
    b.start <= a.start && a.end <= b.end
  }

  /** Disjoint or nested: never a partial overlap. */
  predicate Compatible(a: ExceptionHandler, b: ExceptionHandler) {
    Disjoint(a, b) || Inside(a, b) || Inside(b, a)
  }

  /** Every two ranges are disjoint or nested. */
  predicate Laminar(hs: seq<ExceptionHandler>) {
    forall i, j :: 0 <= i < j < |hs| ==> Compatible(hs[i], hs[j])
  }

  predicate Bounded(h: ExceptionHandler, codeLength: nat) {
    h.start < h.end <= codeLength && h.handler < codeLength
  }

  /** The handlers covering an instruction, in a laminar family, form an inclusion chain. */
  lemma CoveringHandlersNest(hs: seq<ExceptionHandler>, pc: nat, i: nat, j: nat)
    requires Laminar(hs) && i < |hs| && j < |hs|
    requires Protects(hs[i], pc) && Protects(hs[j], pc)
    ensures Inside(hs[i], hs[j]) || Inside(hs[j], hs[i])
  {
    if i < j {
      assert Compatible(hs[i], hs[j]);
    } else if j < i {
      assert Compatible(hs[j], hs[i]);
    }
  }

  /** The instructions a handler protects. */
  ghost function Covered(h: ExceptionHandler): set<nat> {
    set pc: nat | 0 <= pc < h.end && Protects(h, pc)
  }

  /** Compatible ranges are those whose protected instructions are disjoint or nested sets. */
  lemma CompatibleIsSets(a: ExceptionHandler, b: ExceptionHandler)
    requires a.start < a.end && b.start < b.end
    ensures Compatible(a, b) <==>
            Covered(a) !! Covered(b) || Covered(a) <= Covered(b) || Covered(b) <= Covered(a)
  {
    if !Disjoint(a, b) {
      var pc := if a.start <= b.start then b.start else a.start;
      assert pc in Covered(a) && pc in Covered(b);
    }
    if Covered(a) <= Covered(b) { InsideBySets(a, b); }
    if Covered(b) <= Covered(a) { InsideBySets(b, a); }
  }

  lemma InsideBySets(a: ExceptionHandler, b: ExceptionHandler)
    requires a.start < a.end && Covered(a) <= Covered(b)
    ensures Inside(a, b)
  {
    assert a.start in Covered(a) && a.end - 1 in Covered(a);
  }

  // ---- sweep order

  /** Start ascending, end descending, ties in table order (the sort is stable). */
  predicate Precedes(hs: seq<ExceptionHandler>, i: nat, j: nat)
    requires i < |hs| && j < |hs|
  {
    || hs[i].start < hs[j].start
    || (hs[i].start == hs[j].start && hs[i].end > hs[j].end)
    || (hs[i].start == hs[j].start && hs[i].end == hs[j].end && i < j)
  }

  /** `order` lists exactly the handlers before `n`, in sweep order. */
  ghost predicate Arranged(hs: seq<ExceptionHandler>, order: seq<nat>, n: nat)
    requires n <= |hs|
  {
    && |order| == n
    && (forall k :: 0 <= k < |order| ==> order[k] < n)
    && (forall i :: 0 <= i < n ==> i in order)
    && (forall a, b :: 0 <= a < b < |order| ==> Precedes(hs, order[a], order[b]))
  }

  method SweepOrder(hs: seq<ExceptionHandler>) returns (order: seq<nat>)
    ensures Arranged(hs, order, |hs|)
  {
    order := [];
    for i := 0 to |hs|
      invariant Arranged(hs, order, i)
    {
      var p := |order|;
      while p > 0 && Precedes(hs, i, order[p - 1])
        invariant 0 <= p <= |order|
        invariant forall k :: p <= k < |order| ==> Precedes(hs, i, order[k])
      {
        p := p - 1;
      }
      ghost var was := order;
      order := order[..p] + [i] + order[p..];
      InsertionArranges(hs, was, i, p, order);
    }
  }

  lemma InsertionArranges(hs: seq<ExceptionHandler>, was: seq<nat>, i: nat, p: nat, order: seq<nat>)
    requires i < |hs| && Arranged(hs, was, i) && p <= |was|
    requires order == was[..p] + [i] + was[p..]
    requires forall k :: p <= k < |was| ==> Precedes(hs, i, was[k])
    requires p > 0 ==> !Precedes(hs, i, was[p - 1])
    ensures Arranged(hs, order, i + 1)
  {
    forall j | 0 <= j < i + 1
      ensures j in order
    {
      if j == i {
        assert order[p] == i;
      } else {
        assert j in was;
        var k :| 0 <= k < |was| && was[k] == j;
        assert order[if k < p then k else k + 1] == j;
      }
    }
    forall k | 0 <= k < p
      ensures Precedes(hs, was[k], i)
    {
      assert k < p - 1 ==> Precedes(hs, was[k], was[p - 1]);
    }
  }

  // ---- the sweep

  datatype HandlerError =
    | InvalidHandlerBounds(handler: nat)
    | HandlerCatchRegisterOutOfBounds(handler: nat)
    | HandlersPartiallyOverlap(left: nat, right: nat)

  /** An open range of the sweep: its end and its index in the handler table. */
  datatype Open = Open(end: nat, index: nat)

  /** Entries are handlers in sweep order that start no later than `bound`, each nested in all below it. */
  ghost predicate Stack(hs: seq<ExceptionHandler>, open: seq<Open>, bound: nat) {
    && (forall j :: 0 <= j < |open| ==>
          open[j].index < |hs| && open[j].end == hs[open[j].index].end && hs[open[j].index].start <= bound)
    && (forall j, l :: 0 <= j < l < |open| ==>
          open[l].end <= open[j].end && Precedes(hs, open[j].index, open[l].index))
  }

  /** Every swept handler is either over by `bound` or still open. */
  ghost predicate OverOrOpen(hs: seq<ExceptionHandler>, order: seq<nat>, k: nat, open: seq<Open>, bound: nat)
    requires k <= |order| && forall m :: 0 <= m < |order| ==> order[m] < |hs|
  {
    forall m :: 0 <= m < k ==>
      hs[order[m]].end <= bound || exists j :: 0 <= j < |open| && open[j].index == order[m]
  }

  ghost predicate SweptLaminar(hs: seq<ExceptionHandler>, order: seq<nat>, k: nat)
    requires k <= |order| && forall m :: 0 <= m < |order| ==> order[m] < |hs|
  {
    forall a, b :: 0 <= a < b < k ==> Compatible(hs[order[a]], hs[order[b]])
  }

  /** Closes the ranges that end by `start`. */
  method Close(hs: seq<ExceptionHandler>, order: seq<nat>, k: nat, open: seq<Open>, start: nat)
    returns (rest: seq<Open>)
    requires Arranged(hs, order, |hs|) && k <= |order|
    requires Stack(hs, open, start) && OverOrOpen(hs, order, k, open, start)
    ensures Stack(hs, rest, start) && OverOrOpen(hs, order, k, rest, start)
    ensures rest != [] ==> rest[|rest| - 1].end > start
    ensures rest <= open
  {
    hide Precedes;
    rest := open;
    while rest != [] && rest[|rest| - 1].end <= start
      invariant Stack(hs, rest, start) && OverOrOpen(hs, order, k, rest, start) && rest <= open
    {
      var shorter := rest[..|rest| - 1];
      forall m | 0 <= m < k && hs[order[m]].end > start
        ensures exists j :: 0 <= j < |shorter| && shorter[j].index == order[m]
      {
        var j :| 0 <= j < |rest| && rest[j].index == order[m];
        assert shorter[j] == rest[j];
      }
      rest := shorter;
    }
  }

  /** The sweep has met `order[..k]` without a crossing and keeps the open ones on the stack. */
  ghost predicate Swept(hs: seq<ExceptionHandler>, order: seq<nat>, k: nat, open: seq<Open>)
    requires Arranged(hs, order, |hs|) && k <= |order|
  {
    && SweptLaminar(hs, order, k)
    && (forall j :: 0 <= j < |open| ==> open[j].index in order[..k])
    && (k < |order| ==> Stack(hs, open, hs[order[k]].start) && OverOrOpen(hs, order, k, open, hs[order[k]].start))
  }

  /** The pair the sweep stops at: `c` is the first range in sweep order that crosses an earlier one,
      and `p` the last earlier range that is still open where `c` starts. */
  ghost predicate FirstCrossing(hs: seq<ExceptionHandler>, p: nat, c: nat) {
    && p < |hs| && c < |hs| && Precedes(hs, p, c) && !Compatible(hs[p], hs[c])
    && (forall i, j :: 0 <= i < |hs| && 0 <= j < |hs| && Precedes(hs, i, j) && Precedes(hs, j, c) ==>
          Compatible(hs[i], hs[j]))
    && (forall q :: 0 <= q < |hs| && Precedes(hs, p, q) && Precedes(hs, q, c) ==> hs[q].end <= hs[c].start)
  }

  /** The error names the pair the sweep stops at, in table order. */
  ghost predicate ReportsFirstCrossing(hs: seq<ExceptionHandler>, e: HandlerError) {
    && e.HandlersPartiallyOverlap?
    && e.left < e.right < |hs|
    && (FirstCrossing(hs, e.left, e.right) || FirstCrossing(hs, e.right, e.left))
  }

  /** One step: close what is over, then nest in the innermost open range or report a crossing. */
  method Enter(hs: seq<ExceptionHandler>, order: seq<nat>, k: nat, open: seq<Open>)
    returns (e: Option<HandlerError>, next: seq<Open>)
    requires Arranged(hs, order, |hs|) && k < |order| && Swept(hs, order, k, open)
    requires forall i :: 0 <= i < |hs| ==> hs[i].start < hs[i].end
    ensures e.None? ==> Swept(hs, order, k + 1, next)
    ensures e.Some? ==> ReportsFirstCrossing(hs, e.value)
  {
    hide FirstCrossing;
    var index := order[k];
    var range := hs[index];
    next := Close(hs, order, k, open, range.start);
    if next != [] && range.end > next[|next| - 1].end {
      var parent := next[|next| - 1].index;
      CrossingIsFirst(hs, order, k, next);
      var left, right := parent, index;
      if index < parent { left, right := index, parent; }
      e := Some(HandlersPartiallyOverlap(left, right));
      return;
    }
    Nested(hs, order, k, next);
    next := next + [Open(range.end, index)];
    e := None;
  }

  /** Pushing a range that nests in the innermost open one carries the sweep one range on. */
  lemma Nested(hs: seq<ExceptionHandler>, order: seq<nat>, k: nat, open: seq<Open>)
    requires Arranged(hs, order, |hs|) && k < |order| && SweptLaminar(hs, order, k)
    requires forall j :: 0 <= j < |open| ==> open[j].index in order[..k]
    requires Stack(hs, open, hs[order[k]].start) && OverOrOpen(hs, order, k, open, hs[order[k]].start)
    requires open != [] ==> hs[order[k]].end <= open[|open| - 1].end
    ensures Swept(hs, order, k + 1, open + [Open(hs[order[k]].end, order[k])])
  {
    hide Stack, OverOrOpen, SweptLaminar;
    var next := open + [Open(hs[order[k]].end, order[k])];
    NewRangeCompatible(hs, order, k, open);
    assert next[..|next| - 1] == open;
    if k + 1 < |order| { OpenAdvances(hs, order, k, next); }
    assert order[..k + 1] == order[..k] + [order[k]];
  }

  /** Sweep order and positions in it agree. */
  lemma PositionsFollow(hs: seq<ExceptionHandler>, order: seq<nat>, i: nat, k: nat) returns (m: nat)
    requires Arranged(hs, order, |hs|) && i < |hs| && k < |order| && Precedes(hs, i, order[k])
    ensures m < k && order[m] == i
  {
    assert i in order;
    m :| 0 <= m < |order| && order[m] == i;
  }

  lemma CrossingIsFirst(hs: seq<ExceptionHandler>, order: seq<nat>, k: nat, open: seq<Open>)
    requires Arranged(hs, order, |hs|) && k < |order| && SweptLaminar(hs, order, k)
    requires forall j :: 0 <= j < |open| ==> open[j].index in order[..k]
    requires Stack(hs, open, hs[order[k]].start) && OverOrOpen(hs, order, k, open, hs[order[k]].start)
    requires open != [] && hs[order[k]].start < open[|open| - 1].end < hs[order[k]].end
    ensures FirstCrossing(hs, open[|open| - 1].index, order[k])
  {
    var c, p := order[k], open[|open| - 1].index;
    var a :| 0 <= a < k && order[..k][a] == p;
    assert Precedes(hs, order[a], c);
    forall i, j | 0 <= i < |hs| && 0 <= j < |hs| && Precedes(hs, i, j) && Precedes(hs, j, c)
      ensures Compatible(hs[i], hs[j])
    {
      var n := PositionsFollow(hs, order, j, k);
      var m := PositionsFollow(hs, order, i, n);
      assert Compatible(hs[order[m]], hs[order[n]]);
    }
    forall q | 0 <= q < |hs| && Precedes(hs, p, q) && Precedes(hs, q, c)
      ensures hs[q].end <= hs[c].start
    {
      var n := PositionsFollow(hs, order, q, k);
    }
  }

  /** Sweeps the ordered ranges; reports the first crossing pair it meets, in table order. */
  method Sweep(hs: seq<ExceptionHandler>, order: seq<nat>) returns (e: Option<HandlerError>)
    requires Arranged(hs, order, |hs|)
    requires forall i :: 0 <= i < |hs| ==> hs[i].start < hs[i].end
    ensures e.None? <==> Laminar(hs)
    ensures e.Some? ==> ReportsFirstCrossing(hs, e.value)
  {
    var open: seq<Open> := [];
    for k := 0 to |order|
      invariant Swept(hs, order, k, open)
    {
      e, open := Enter(hs, order, k, open);
      if e.Some? {
        CrossingIsNotLaminar(hs, e.value);
        return;
      }
    }
    SweptIsLaminar(hs, order);
    e := None;
  }

  lemma NewRangeCompatible(hs: seq<ExceptionHandler>, order: seq<nat>, k: nat, open: seq<Open>)
    requires Arranged(hs, order, |hs|) && k < |order| && SweptLaminar(hs, order, k)
    requires Stack(hs, open, hs[order[k]].start) && OverOrOpen(hs, order, k, open, hs[order[k]].start)
    requires open != [] ==> hs[order[k]].end <= open[|open| - 1].end
    ensures SweptLaminar(hs, order, k + 1)
  {
    forall a | 0 <= a < k
      ensures Compatible(hs[order[a]], hs[order[k]])
    {
      if hs[order[a]].end > hs[order[k]].start {
        var j :| 0 <= j < |open| && open[j].index == order[a];
        assert open[|open| - 1].end <= open[j].end;
      }
    }
  }

  lemma OpenAdvances(hs: seq<ExceptionHandler>, order: seq<nat>, k: nat, open: seq<Open>)
    requires Arranged(hs, order, |hs|) && k + 1 < |order| && |open| > 0
    requires open[|open| - 1] == Open(hs[order[k]].end, order[k])
    requires Stack(hs, open[..|open| - 1], hs[order[k]].start)
    requires forall j :: 0 <= j < |open| - 1 ==> open[j].index in order[..k]
    requires OverOrOpen(hs, order, k, open[..|open| - 1], hs[order[k]].start)
    requires |open| > 1 ==> hs[order[k]].end <= open[|open| - 2].end
    ensures Stack(hs, open, hs[order[k + 1]].start)
    ensures OverOrOpen(hs, order, k + 1, open, hs[order[k + 1]].start)
  {
    var below, bound := open[..|open| - 1], hs[order[k + 1]].start;
    assert Precedes(hs, order[k], order[k + 1]);
    assert hs[order[k]].start <= bound;
    forall j | 0 <= j < |below|
      ensures Precedes(hs, below[j].index, order[k])
    {
      var m :| 0 <= m < k && order[..k][m] == open[j].index;
      assert Precedes(hs, order[m], order[k]);
    }
    assert open == below + [Open(hs[order[k]].end, order[k])];
    hide Stack, OverOrOpen, Precedes, Arranged;
    StackPushed(hs, below, hs[order[k]].start, bound, order[k]);
    OpenPushed(hs, order, k, below, hs[order[k]].start, bound);
  }

  lemma StackPushed(hs: seq<ExceptionHandler>, below: seq<Open>, start: nat, bound: nat, index: nat)
    requires Stack(hs, below, start) && index < |hs| && start == hs[index].start <= bound
    requires forall j :: 0 <= j < |below| ==> Precedes(hs, below[j].index, index)
    requires below != [] ==> hs[index].end <= below[|below| - 1].end
    ensures Stack(hs, below + [Open(hs[index].end, index)], bound)
  {
    hide Precedes;
  }

  lemma OpenPushed(hs: seq<ExceptionHandler>, order: seq<nat>, k: nat, below: seq<Open>, start: nat, bound: nat)
    requires k < |order| && forall m :: 0 <= m < |order| ==> order[m] < |hs|
    requires OverOrOpen(hs, order, k, below, start) && start <= bound
    ensures OverOrOpen(hs, order, k + 1, below + [Open(hs[order[k]].end, order[k])], bound)
  {
    var open := below + [Open(hs[order[k]].end, order[k])];
    forall m | 0 <= m < k + 1 && hs[order[m]].end > bound
      ensures exists j :: 0 <= j < |open| && open[j].index == order[m]
    {
      if m == k {
        assert open[|below|].index == order[m];
      } else {
        var j :| 0 <= j < |below| && below[j].index == order[m];
        assert open[j].index == order[m];
      }
    }
  }

  lemma SweptIsLaminar(hs: seq<ExceptionHandler>, order: seq<nat>)
    requires Arranged(hs, order, |hs|) && SweptLaminar(hs, order, |hs|)
    ensures Laminar(hs)
  {
    forall i, j | 0 <= i < j < |hs|
      ensures Compatible(hs[i], hs[j])
    {
      assert i in order && j in order;
      var a :| 0 <= a < |order| && order[a] == i;
      var b :| 0 <= b < |order| && order[b] == j;
      if a < b {
        assert Compatible(hs[order[a]], hs[order[b]]);
      } else {
        assert Compatible(hs[order[b]], hs[order[a]]);
      }
    }
  }

  // ---- the whole check

  predicate HandlerFits(f: Function, h: ExceptionHandler) {
    Bounded(h, |f.code|) && h.catchRegister < f.registerCount
  }

  predicate HandlersOk(f: Function) {
    (forall h :: 0 <= h < |f.handlers| ==> HandlerFits(f, f.handlers[h])) && Laminar(f.handlers)
  }

  /** The first fault: the first handler that does not fit or, if all fit, the pair the sweep stops at. */
  ghost predicate HandlerErrorIsReal(f: Function, e: HandlerError) {
    match e
    case InvalidHandlerBounds(h) =>
      && h < |f.handlers| && !Bounded(f.handlers[h], |f.code|)
      && forall g :: 0 <= g < h ==> HandlerFits(f, f.handlers[g])
    case HandlerCatchRegisterOutOfBounds(h) =>
      && h < |f.handlers| && Bounded(f.handlers[h], |f.code|) && f.handlers[h].catchRegister >= f.registerCount
      && forall g :: 0 <= g < h ==> HandlerFits(f, f.handlers[g])
    case HandlersPartiallyOverlap(_, _) =>
      && ReportsFirstCrossing(f.handlers, e)
      && forall g :: 0 <= g < |f.handlers| ==> HandlerFits(f, f.handlers[g])
  }

  lemma CrossingIsNotLaminar(hs: seq<ExceptionHandler>, e: HandlerError)
    requires ReportsFirstCrossing(hs, e)
    ensures !Laminar(hs)
  {
    assert !Compatible(hs[e.left], hs[e.right]);
  }

  /** Whatever is reported of the handlers, they are not in order. */
  lemma HandlerErrorRejects(f: Function, e: HandlerError)
    requires HandlerErrorIsReal(f, e)
    ensures !HandlersOk(f)
  {
    hide ReportsFirstCrossing;
    if e.HandlersPartiallyOverlap? { CrossingIsNotLaminar(f.handlers, e); }
  }

  /** Accepts exactly the bounded laminar families and otherwise reports the first fault. */
  method VerifyHandlers(f: Function) returns (e: Option<HandlerError>)
    ensures e.None? <==> HandlersOk(f)
    ensures e.Some? ==> HandlerErrorIsReal(f, e.value)
  {
    for h := 0 to |f.handlers|
      invariant forall g :: 0 <= g < h ==> HandlerFits(f, f.handlers[g])
    {
      var range := f.handlers[h];
      if range.start >= range.end || range.end > |f.code| || range.handler >= |f.code| {
        return Some(InvalidHandlerBounds(h));
      }
      if range.catchRegister >= f.registerCount {
        return Some(HandlerCatchRegisterOutOfBounds(h));
      }
    }
    hide ReportsFirstCrossing;
    var order := SweepOrder(f.handlers);
    e := Sweep(f.handlers, order);
  }
}
