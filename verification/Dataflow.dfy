/** Definite initialization, by definition: runs of a function, the facts that hold on all of them,
    and the inequations whose greatest solution those facts are.
 */
module Dataflow {
  import opened Base
  import opened Instructions
  import opened Bytecode
  import opened RegisterSets

  /** Registers holding captures and parameters on entry; the sum saturates at 32 bits. */
  function EntryInitialized(f: Function): U32 {
    var sum := f.captureCount + f.parameterCount;
    if sum < U32_LIMIT then sum else U32_LIMIT - 1
  }

  ghost function Written(i: Instruction): set<nat> {
    set r: nat | r in Writes(i)
  }

  /** What the structural checks have established before the dataflow pass starts. */
  ghost predicate Wired(f: Function) {
    && |f.code| > 0
    && EntryInitialized(f) <= f.registerCount
    && (forall pc, s :: Flows(f, pc, s) ==> 0 <= s < |f.code|)
    && (forall pc, r :: 0 <= pc < |f.code| && r in Reads(f.code[pc]) ==> r < f.registerCount)
    && (forall pc, r :: 0 <= pc < |f.code| && r in Writes(f.code[pc]) ==> r < f.registerCount)
    && (forall h :: 0 <= h < |f.handlers| ==>
          && f.handlers[h].start < f.handlers[h].end <= |f.code|
          && f.handlers[h].handler < |f.code|
          && f.handlers[h].catchRegister < f.registerCount)
  }

  // ---- runs

  /** Normal control, resumption included, can pass from `pc` to `s`. */
  ghost predicate Flows(f: Function, pc: int, s: int) {
    0 <= pc < |f.code| && s in Successors(f.code[pc], pc)
  }

  /** An exception raised at `pc` can be dispatched to handler `h`. */
  ghost predicate Throws(f: Function, h: int, pc: int) {
    0 <= h < |f.handlers| && Protects(f.handlers[h], pc)
  }

  /** A point of a run: the next instruction and the registers initialized so far. */
  datatype State = State(pc: int, init: set<nat>)

  ghost predicate NormalStep(f: Function, s: State, t: State) {
    Flows(f, s.pc, t.pc) && t.init == s.init + Written(f.code[s.pc])
  }

  /** The raising instruction has written nothing; dispatch writes the catch register. */
  ghost predicate ThrowStep(f: Function, h: int, s: State, t: State) {
    Throws(f, h, s.pc) && t == State(f.handlers[h].handler, s.init + {f.handlers[h].catchRegister})
  }

  ghost predicate Step(f: Function, s: State, t: State) {
    NormalStep(f, s, t) || exists h :: ThrowStep(f, h, s, t)
  }

  ghost function Start(f: Function): State {
    State(0, Below(EntryInitialized(f)))
  }

  /** A finite run from entry, any mix of normal, resume and exceptional steps. */
  ghost predicate IsRun(f: Function, run: seq<State>) {
    && |run| > 0
    && run[0] == Start(f)
    && forall k :: 0 < k < |run| ==> Step(f, run[k - 1], run[k])
  }

  ghost function Last(run: seq<State>): State
    requires |run| > 0
  {
    run[|run| - 1]
  }

  /** Every point of every run is an instruction whose reads are initialized. */
  ghost predicate RunsSafely(f: Function) {
    forall run :: IsRun(f, run) ==>
      && 0 <= Last(run).pc < |f.code|
      && forall r :: r in Reads(f.code[Last(run).pc]) ==> r in Last(run).init
  }

  /** The registers that every run reaching `pc` has initialized. */
  ghost function OnAllRuns(f: Function, pc: int): set<nat> {
    set r | r in Below(f.registerCount)
            && forall run :: IsRun(f, run) && Last(run).pc == pc ==> r in Last(run).init
  }

  // ---- the dataflow inequations

  /** A family of facts satisfying the entry, transfer and handler inequations. */
  ghost predicate Solution(f: Function, facts: seq<set<nat>>) {
    && |facts| == |f.code| > 0
    && facts[0] <= Below(EntryInitialized(f))
    && (forall pc, s :: Flows(f, pc, s) ==> 0 <= s < |f.code| && facts[s] <= facts[pc] + Written(f.code[pc]))
    && (forall h, pc :: Throws(f, h, pc) && pc < |f.code| ==>
          && f.handlers[h].handler < |f.code|
          && facts[f.handlers[h].handler] <= facts[pc] + {f.handlers[h].catchRegister})
  }

  /** Runs never leave the code. */
  lemma {:induction false} RunsStayInCode(f: Function, run: seq<State>)
    requires Wired(f) && IsRun(f, run)
    ensures 0 <= Last(run).pc < |f.code|
  {
    if |run| > 1 {
      assert Step(f, run[|run| - 2], run[|run| - 1]);
    }
  }

  /** A solution holds along every run. */
  lemma {:induction false} SolutionHoldsOnRuns(f: Function, facts: seq<set<nat>>, run: seq<State>)
    requires Wired(f) && Solution(f, facts) && IsRun(f, run)
    ensures 0 <= Last(run).pc < |f.code|
    ensures facts[Last(run).pc] <= Last(run).init
    decreases |run|
  {
    RunsStayInCode(f, run);
    if |run| > 1 {
      var prefix := run[..|run| - 1];
      SolutionHoldsOnRuns(f, facts, prefix);
      var s, t := Last(prefix), Last(run);
      assert Step(f, s, t) by { assert s == run[|run| - 2]; }
      if !NormalStep(f, s, t) {
        var h :| ThrowStep(f, h, s, t);
      }
    }
  }

  lemma RunExtends(f: Function, run: seq<State>, t: State)
    requires IsRun(f, run) && Step(f, Last(run), t)
    ensures IsRun(f, run + [t]) && Last(run + [t]) == t
  {
    var longer := run + [t];
    forall k | 0 < k < |longer|
      ensures Step(f, longer[k - 1], longer[k])
    {
      if k < |run| { assert Step(f, run[k - 1], run[k]); }
    }
  }

  lemma FactFlows(f: Function, pc: int, s: int)
    requires Flows(f, pc, s)
    ensures OnAllRuns(f, s) <= OnAllRuns(f, pc) + Written(f.code[pc])
  {
    forall r, run | r in OnAllRuns(f, s) && r !in Written(f.code[pc]) && IsRun(f, run) && Last(run).pc == pc
      ensures r in Last(run).init
    {
      var t := State(s, Last(run).init + Written(f.code[pc]));
      assert NormalStep(f, Last(run), t);
      RunExtends(f, run, t);
    }
  }

  lemma FactThrows(f: Function, h: int, pc: int)
    requires Throws(f, h, pc)
    ensures OnAllRuns(f, f.handlers[h].handler) <= OnAllRuns(f, pc) + {f.handlers[h].catchRegister}
  {
    var catchRegister := f.handlers[h].catchRegister;
    forall r, run | r in OnAllRuns(f, f.handlers[h].handler) && r != catchRegister
                    && IsRun(f, run) && Last(run).pc == pc
      ensures r in Last(run).init
    {
      var t := State(f.handlers[h].handler, Last(run).init + {catchRegister});
      assert ThrowStep(f, h, Last(run), t);
      RunExtends(f, run, t);
    }
  }

  lemma FactAtEntry(f: Function)
    ensures OnAllRuns(f, 0) <= Below(EntryInitialized(f))
  {
    assert IsRun(f, [Start(f)]) && Last([Start(f)]) == Start(f);
  }

  lemma {:induction false} RunsKeepEntry(f: Function, run: seq<State>)
    requires IsRun(f, run)
    ensures Below(EntryInitialized(f)) <= Last(run).init
    decreases |run|
  {
    if |run| > 1 {
      RunsKeepEntry(f, run[..|run| - 1]);
      assert Step(f, run[|run| - 2], run[|run| - 1]);
    }
  }

  /** Captures and parameters are initialized everywhere. */
  lemma EntryOnAllRuns(f: Function, pc: int)
    requires EntryInitialized(f) <= f.registerCount
    ensures Below(EntryInitialized(f)) <= OnAllRuns(f, pc)
    ensures f.captureCount + f.parameterCount <= f.registerCount ==>
              forall r :: 0 <= r < f.captureCount + f.parameterCount ==> r in OnAllRuns(f, pc)
  {
    forall r, run | r in Below(EntryInitialized(f)) && IsRun(f, run) && Last(run).pc == pc
      ensures r in Last(run).init
    {
      RunsKeepEntry(f, run);
    }
  }

  /** On entry nothing else is. */
  lemma EntryIsExact(f: Function)
    requires f.captureCount + f.parameterCount <= f.registerCount
    ensures forall r :: r in OnAllRuns(f, 0) <==> 0 <= r < f.captureCount + f.parameterCount
  {
    EntryOnAllRuns(f, 0);
    FactAtEntry(f);
  }

  /** Any solution lies below the all-runs facts, pointwise. */
  lemma SolutionBelowOnAllRuns(f: Function, facts: seq<set<nat>>, pc: int)
    requires Wired(f) && Solution(f, facts) && 0 <= pc < |f.code|
    requires facts[pc] <= Below(f.registerCount)
    ensures facts[pc] <= OnAllRuns(f, pc)
  {
    forall r, run | r in facts[pc] && IsRun(f, run) && Last(run).pc == pc
      ensures r in Last(run).init
    {
      SolutionHoldsOnRuns(f, facts, run);
    }
  }

  ghost function OnAllRunsFamily(f: Function): (facts: seq<set<nat>>)
    ensures |facts| == |f.code|
    ensures forall pc :: 0 <= pc < |f.code| ==> facts[pc] == OnAllRuns(f, pc)
  {
    seq(|f.code|, pc => OnAllRuns(f, pc))
  }

  /** The all-runs facts satisfy the inequations, so they are the greatest solution. */
  lemma OnAllRunsIsGreatestSolution(f: Function)
    requires Wired(f)
    ensures Solution(f, OnAllRunsFamily(f))
    ensures forall facts, pc ::
              Solution(f, facts) && 0 <= pc < |f.code| && facts[pc] <= Below(f.registerCount)
              ==> facts[pc] <= OnAllRuns(f, pc)
  {
    FactAtEntry(f);
    forall pc, s | Flows(f, pc, s)
      ensures OnAllRuns(f, s) <= OnAllRuns(f, pc) + Written(f.code[pc])
    {
      FactFlows(f, pc, s);
    }
    forall h, pc | Throws(f, h, pc)
      ensures OnAllRuns(f, f.handlers[h].handler) <= OnAllRuns(f, pc) + {f.handlers[h].catchRegister}
    {
      FactThrows(f, h, pc);
    }
    forall facts, pc | Solution(f, facts) && 0 <= pc < |f.code| && facts[pc] <= Below(f.registerCount)
      ensures facts[pc] <= OnAllRuns(f, pc)
    {
      SolutionBelowOnAllRuns(f, facts, pc);
    }
  }

  /** Safety of all runs is the read check against the all-runs facts. */
  lemma SafeIffReadsOnAllRuns(f: Function)
    requires Wired(f)
    ensures RunsSafely(f) <==>
            forall pc, r :: 0 <= pc < |f.code| && r in Reads(f.code[pc]) ==> r in OnAllRuns(f, pc)
  {
    if forall pc, r :: 0 <= pc < |f.code| && r in Reads(f.code[pc]) ==> r in OnAllRuns(f, pc) {
      forall run | IsRun(f, run)
        ensures 0 <= Last(run).pc < |f.code|
        ensures forall r :: r in Reads(f.code[Last(run).pc]) ==> r in Last(run).init
      {
        RunsStayInCode(f, run);
      }
    }
  }
}
