/** The in-place chaotic iteration that builds a function's definite-initialization certificate. */
module Fixpoint {
  import opened Base
  import opened Instructions
  import opened Bytecode
  import opened RegisterSets
  import opened Dataflow

  /** The words of every fact; a value, so it outlives the bitsets it was read from. */
  datatype Certificate = Certificate(registerCount: U32, facts: seq<seq<Word>>)

  /** Exactly the all-runs facts, in the canonical word layout. */
  ghost predicate IsCertificate(f: Function, c: Certificate) {
    && c.registerCount == f.registerCount
    && |c.facts| == |f.code|
    && forall pc :: 0 <= pc < |c.facts| ==>
         && |c.facts[pc]| == WordsFor(f.registerCount)
         && Registers(c.facts[pc]) == OnAllRuns(f, pc)
  }

  /** A function has at most one certificate. */
  lemma CertificateUnique(f: Function, c: Certificate, d: Certificate)
    requires IsCertificate(f, c) && IsCertificate(f, d)
    ensures c == d
  {
    forall pc | 0 <= pc < |c.facts|
      ensures c.facts[pc] == d.facts[pc]
    {
      RegistersDetermineWords(c.facts[pc], d.facts[pc]);
    }
  }

  /** Whether `register` is definitely initialized before `pc`; `None` outside the certificate. */
  function InitializedBefore(c: Certificate, pc: nat, register: nat): Option<bool> {
    if register >= c.registerCount || pc >= |c.facts| then None
    else
      var words := c.facts[pc];
      Some(register / 64 < |words| && And(words[register / 64], Pow2(register % 64)) != 0)
  }

  /** The query answers for all runs. */
  lemma InitializedBeforeIsOnAllRuns(f: Function, c: Certificate, pc: nat, register: nat)
    requires IsCertificate(f, c)
    ensures InitializedBefore(c, pc, register).Some? <==> pc < |f.code| && register < f.registerCount
    ensures InitializedBefore(c, pc, register).Some? ==>
              (InitializedBefore(c, pc, register).value <==>
               forall run :: IsRun(f, run) && Last(run).pc == pc ==> register in Last(run).init)
  {
    if pc < |f.code| && register < f.registerCount {
      var words := c.facts[pc];
      MaskTestsBit(words[register / 64], register % 64);
      assert register in Registers(words) <==> register in OnAllRuns(f, pc);
    }
  }

  // ---- the facts under construction

  /** `sets` is what the facts stand for; the facts all have one width. */
  ghost predicate Represents(facts: seq<seq<Word>>, sets: seq<set<nat>>, width: nat) {
    && |facts| == |sets|
    && forall i {:trigger facts[i]} :: 0 <= i < |facts| ==> |facts[i]| == width && Stands(facts[i], sets[i])
  }

  /** Total number of facts; the termination measure of the iteration. */
  ghost function Weight(sets: seq<set<nat>>): nat {
    if sets == [] then 0 else Weight(sets[..|sets| - 1]) + |sets[|sets| - 1]|
  }

  lemma {:induction false} WeightShrinks(a: seq<set<nat>>, b: seq<set<nat>>)
    requires |a| == |b|
    requires forall i :: 0 <= i < |a| ==> a[i] <= b[i]
    ensures Weight(a) <= Weight(b)
    ensures a != b ==> Weight(a) < Weight(b)
  {
    if a != [] {
      var n := |a| - 1;
      WeightShrinks(a[..n], b[..n]);
      SubsetSize(a[n], b[n]);
      assert a == a[..n] + [a[n]] && b == b[..n] + [b[n]];
    }
  }

  lemma {:induction false} WeightBound(sets: seq<set<nat>>, size: nat)
    requires forall i :: 0 <= i < |sets| ==> |sets[i]| <= size
    ensures Weight(sets) <= |sets| * size
  {
    if sets != [] {
      WeightBound(sets[..|sets| - 1], size);
      assert |sets| * size == (|sets| - 1) * size + size;
    }
  }

  /** What the iteration needs to know of the facts it is after: they solve the inequations and
      contain the entry registers everywhere. */
  ghost predicate Target(f: Function, goal: seq<set<nat>>) {
    && Wired(f)
    && Solution(f, goal)
    && forall pc :: 0 <= pc < |goal| ==> Below(EntryInitialized(f)) <= goal[pc] <= Below(f.registerCount)
  }

  /** Every fact still contains its goal, and the entry fact never moves. */
  ghost predicate Above(f: Function, goal: seq<set<nat>>, sets: seq<set<nat>>) {
    && |sets| == |goal| == |f.code| > 0
    && sets[0] == Below(EntryInitialized(f))
    && forall pc :: 0 <= pc < |sets| ==> goal[pc] <= sets[pc] <= Below(f.registerCount)
  }

  ghost predicate Shrunk(now: seq<set<nat>>, was: seq<set<nat>>, changed: bool) {
    && |now| == |was|
    && (forall i :: 0 <= i < |now| ==> now[i] <= was[i])
    && (!changed ==> now == was)
    && (changed ==> now != was)
  }

  /** Meets the fact at `pc` with a mask, in place. */
  method Meet(f: Function, facts: seq<seq<Word>>, pc: nat, mask: seq<Word>,
              ghost goal: seq<set<nat>>, ghost sets: seq<set<nat>>, ghost limit: set<nat>)
    returns (changed: bool, met: seq<seq<Word>>, ghost after: seq<set<nat>>)
    requires Target(f, goal) && Above(f, goal, sets) && Represents(facts, sets, WordsFor(f.registerCount))
    requires pc < |facts| && |mask| == WordsFor(f.registerCount) && Stands(mask, limit)
    requires goal[pc] <= limit
    ensures Represents(met, after, WordsFor(f.registerCount)) && Above(f, goal, after)
    ensures after == sets[pc := sets[pc] * limit]
    ensures Shrunk(after, sets, changed)
  {
    StandsIsRegisters(facts[pc], sets[pc]);
    StandsIsRegisters(mask, limit);
    var fact := new RegisterSet.Of(facts[pc]);
    changed := fact.Intersect(mask);
    met := facts[pc := fact.words];
    after := sets[pc := fact.Members()];
    StandsIsRegisters(fact.words, fact.Members());
    assert sets == sets[pc := sets[pc]];
  }

  lemma ShrunkTwice(a: seq<set<nat>>, b: seq<set<nat>>, c: seq<set<nat>>, ab: bool, bc: bool)
    requires Shrunk(b, a, ab) && Shrunk(c, b, bc)
    ensures Shrunk(c, a, ab || bc)
  {
    if ab && bc && c == a {
      assert forall i :: 0 <= i < |a| ==> b[i] == a[i];
    }
  }

  // ---- one round

  /** All transfer inequations out of the instructions before `pc`. */
  ghost predicate TransfersBefore(f: Function, sets: seq<set<nat>>, pc: int)
    requires |sets| == |f.code|
  {
    forall q, s :: Flows(f, q, s) && q < pc && 0 <= s < |f.code| ==> sets[s] <= sets[q] + Written(f.code[q])
  }

  /** All inequations of the handlers before `h`. */
  ghost predicate HandlersBefore(f: Function, sets: seq<set<nat>>, h: int)
    requires |sets| == |f.code|
  {
    forall g, q :: Throws(f, g, q) && g < h && q < |f.code| && f.handlers[g].handler < |f.code| ==>
      sets[f.handlers[g].handler] <= sets[q] + {f.handlers[g].catchRegister}
  }

  /** A fact with an instruction's writes added. */
  method AfterWrites(writes: seq<Register>, fact: seq<Word>, ghost members: set<nat>)
    returns (mask: seq<Word>, ghost limit: set<nat>)
    requires Stands(fact, members)
    requires forall r :: r in writes ==> r < 64 * |fact|
    ensures |mask| == |fact| && Stands(mask, limit)
    ensures limit == members + set r: nat | r in writes
  {
    var after := new RegisterSet.Of(fact);
    limit := members;
    StandsIsRegisters(fact, members);
    for k := 0 to |writes|
      invariant |after.words| == |fact|
      invariant after.Members() == limit
      invariant limit == members + set r: nat | r in writes[..k]
    {
      after.Insert(writes[k]);
      limit := limit + {writes[k]};
      assert writes[k] in writes;
      assert writes[..k + 1] == writes[..k] + [writes[k]];
    }
    assert writes[..|writes|] == writes;
    mask := after.words;
    StandsIsRegisters(mask, limit);
  }

  /** Meets the after-fact of one instruction into each of its successors. */
  method MeetSuccessors(f: Function, facts: seq<seq<Word>>, pc: nat, mask: seq<Word>,
                        ghost goal: seq<set<nat>>, ghost sets: seq<set<nat>>, ghost limit: set<nat>)
    returns (changed: bool, met: seq<seq<Word>>, ghost after: seq<set<nat>>)
    requires Target(f, goal) && Above(f, goal, sets) && Represents(facts, sets, WordsFor(f.registerCount))
    requires pc < |f.code| && |mask| == WordsFor(f.registerCount) && Stands(mask, limit)
    requires limit == sets[pc] + Written(f.code[pc])
    ensures Represents(met, after, WordsFor(f.registerCount)) && Above(f, goal, after)
    ensures Shrunk(after, sets, changed)
    ensures !changed ==> forall s :: Flows(f, pc, s) ==> 0 <= s < |f.code| && sets[s] <= limit
  {
    changed, met, after := false, facts, sets;
    var successors := Successors(f.code[pc], pc);
    for k := 0 to |successors|
      invariant Represents(met, after, WordsFor(f.registerCount)) && Above(f, goal, after)
      invariant Shrunk(after, sets, changed)
      invariant !changed ==> forall j :: 0 <= j < k ==> 0 <= successors[j] < |f.code| && sets[successors[j]] <= limit
    {
      var s := successors[k];
      assert Flows(f, pc, s);
      assert goal[s] <= goal[pc] + Written(f.code[pc]) <= limit;
      ghost var middle := after;
      var c;
      c, met, after := Meet(f, met, s, mask, goal, middle, limit);
      ShrunkTwice(sets, middle, after, changed, c);
      changed := changed || c;
      if !changed { assert after[s] == sets[s] * limit; }
    }
  }

  lemma WritesFit(f: Function, pc: nat)
    requires Wired(f) && pc < |f.code|
    ensures forall r :: r in Writes(f.code[pc]) ==> r < 64 * WordsFor(f.registerCount)
  {}

  lemma TransferStep(f: Function, sets: seq<set<nat>>, pc: nat)
    requires |sets| == |f.code| && pc < |f.code| && TransfersBefore(f, sets, pc)
    requires forall s :: Flows(f, pc, s) ==> 0 <= s < |f.code| && sets[s] <= sets[pc] + Written(f.code[pc])
    ensures TransfersBefore(f, sets, pc + 1)
  {}

  /** The instruction half of a round: visit every instruction, meeting into its successors. */
  method TransferRound(f: Function, facts: seq<seq<Word>>, ghost goal: seq<set<nat>>, ghost sets: seq<set<nat>>)
    returns (changed: bool, met: seq<seq<Word>>, ghost after: seq<set<nat>>)
    requires Target(f, goal) && Above(f, goal, sets) && Represents(facts, sets, WordsFor(f.registerCount))
    ensures Represents(met, after, WordsFor(f.registerCount)) && Above(f, goal, after)
    ensures Shrunk(after, sets, changed)
    ensures !changed ==> TransfersBefore(f, after, |f.code|)
  {
    changed, met, after := false, facts, sets;
    for pc := 0 to |f.code|
      invariant Represents(met, after, WordsFor(f.registerCount)) && Above(f, goal, after)
      invariant Shrunk(after, sets, changed)
      invariant !changed ==> TransfersBefore(f, after, pc)
    {
      var mask;
      ghost var limit;
      WritesFit(f, pc);
      mask, limit := AfterWrites(Writes(f.code[pc]), met[pc], after[pc]);
      ghost var middle := after;
      var c;
      c, met, after := MeetSuccessors(f, met, pc, mask, goal, middle, limit);
      ShrunkTwice(sets, middle, after, changed, c);
      changed := changed || c;
      if !changed { TransferStep(f, after, pc); }
    }
  }

  /** `r` is in every fact of the protected range before `p`. */
  ghost predicate OnProtected(f: Function, handler: ExceptionHandler, sets: seq<set<nat>>, p: int, r: nat)
    requires p <= |sets|
  {
    r in Below(f.registerCount) && forall q :: handler.start <= q < p ==> r in sets[q]
  }

  /** The intersection of the pre-facts over a protected range. */
  method MeetProtected(f: Function, handler: ExceptionHandler, facts: seq<seq<Word>>, ghost sets: seq<set<nat>>)
    returns (words: seq<Word>, ghost limit: set<nat>)
    requires Represents(facts, sets, WordsFor(f.registerCount))
    requires handler.start < handler.end <= |facts|
    ensures |words| == WordsFor(f.registerCount) && Stands(words, limit)
    ensures forall q :: handler.start <= q < handler.end ==> limit <= sets[q]
    ensures forall r :: OnProtected(f, handler, sets, handler.end, r) ==> r in limit
  {
    hide Registers, InWords;
    var meet := new RegisterSet.Full(f.registerCount);
    limit := Below(f.registerCount);
    for p := handler.start to handler.end
      invariant |meet.words| == WordsFor(f.registerCount) && meet.Members() == limit
      invariant forall q :: handler.start <= q < p ==> limit <= sets[q]
      invariant forall r :: OnProtected(f, handler, sets, p, r) ==> r in limit
    {
      ProtectedStep(f, handler, sets, p, limit);
      StandsIsRegisters(facts[p], sets[p]);
      var _ := meet.Intersect(facts[p]);
      limit := limit * sets[p];
    }
    words := meet.words;
    StandsIsRegisters(words, limit);
  }

  lemma ProtectedStep(f: Function, handler: ExceptionHandler, sets: seq<set<nat>>, p: nat, limit: set<nat>)
    requires handler.start <= p < |sets|
    requires forall r :: OnProtected(f, handler, sets, p, r) ==> r in limit
    ensures forall r :: OnProtected(f, handler, sets, p + 1, r) ==> r in limit * sets[p]
  {
    forall r | OnProtected(f, handler, sets, p + 1, r)
      ensures r in limit && r in sets[p]
    {
      assert OnProtected(f, handler, sets, p, r);
    }
  }

  /** What a handler is met with: the protected intersection plus the catch register. */
  method Contribution(f: Function, handler: ExceptionHandler, facts: seq<seq<Word>>, ghost sets: seq<set<nat>>)
    returns (contribution: seq<Word>, ghost limit: set<nat>)
    requires Represents(facts, sets, WordsFor(f.registerCount))
    requires handler.start < handler.end <= |facts| && handler.catchRegister < f.registerCount
    ensures |contribution| == WordsFor(f.registerCount) && Stands(contribution, limit)
    ensures forall q :: handler.start <= q < handler.end ==> limit <= sets[q] + {handler.catchRegister}
    ensures forall r :: OnProtected(f, handler, sets, handler.end, r) ==> r in limit
    ensures handler.catchRegister in limit
  {
    var words;
    ghost var common;
    words, common := MeetProtected(f, handler, facts, sets);
    StandsIsRegisters(words, common);
    var plus := new RegisterSet.Of(words);
    plus.Insert(handler.catchRegister);
    contribution := plus.words;
    limit := common + {handler.catchRegister};
    StandsIsRegisters(contribution, limit);
  }

  lemma HandlerGoalBelow(f: Function, h: nat, goal: seq<set<nat>>, sets: seq<set<nat>>, limit: set<nat>)
    requires Target(f, goal) && Above(f, goal, sets) && h < |f.handlers|
    requires forall r :: OnProtected(f, f.handlers[h], sets, f.handlers[h].end, r) ==> r in limit
    requires f.handlers[h].catchRegister in limit
    ensures goal[f.handlers[h].handler] <= limit
  {
    var handler := f.handlers[h];
    forall r | r in goal[handler.handler] && r != handler.catchRegister
      ensures r in limit
    {
      forall q | handler.start <= q < handler.end
        ensures r in sets[q]
      {
        assert Throws(f, h, q);
      }
      assert OnProtected(f, handler, sets, handler.end, r);
    }
  }

  /** The handler half of a round: a handler meets the contribution of its protected range. */
  method HandlerRound(f: Function, facts: seq<seq<Word>>, ghost goal: seq<set<nat>>, ghost sets: seq<set<nat>>)
    returns (changed: bool, met: seq<seq<Word>>, ghost after: seq<set<nat>>)
    requires Target(f, goal) && Above(f, goal, sets) && Represents(facts, sets, WordsFor(f.registerCount))
    ensures Represents(met, after, WordsFor(f.registerCount)) && Above(f, goal, after)
    ensures Shrunk(after, sets, changed)
    ensures !changed ==> HandlersBefore(f, after, |f.handlers|)
  {
    changed, met, after := false, facts, sets;
    for h := 0 to |f.handlers|
      invariant Represents(met, after, WordsFor(f.registerCount)) && Above(f, goal, after)
      invariant Shrunk(after, sets, changed)
      invariant !changed ==> HandlersBefore(f, after, h)
    {
      var handler := f.handlers[h];
      var contribution;
      ghost var limit;
      contribution, limit := Contribution(f, handler, met, after);
      HandlerGoalBelow(f, h, goal, after, limit);
      ghost var middle := after;
      var c;
      c, met, after := Meet(f, met, handler.handler, contribution, goal, middle, limit);
      ShrunkTwice(sets, middle, after, changed, c);
      changed := changed || c;
      if !changed {
        assert after[handler.handler] == middle[handler.handler] * limit;
        HandlerStep(f, after, h);
      }
    }
  }

  lemma HandlerStep(f: Function, sets: seq<set<nat>>, h: nat)
    requires |sets| == |f.code| && h < |f.handlers| && HandlersBefore(f, sets, h)
    requires f.handlers[h].handler < |f.code| && f.handlers[h].end <= |f.code|
    requires forall q :: f.handlers[h].start <= q < f.handlers[h].end ==>
               sets[f.handlers[h].handler] <= sets[q] + {f.handlers[h].catchRegister}
    ensures HandlersBefore(f, sets, h + 1)
  {}

  // ---- iteration to the fixpoint

  ghost function InitialSets(f: Function): (sets: seq<set<nat>>)
    requires |f.code| > 0
    ensures |sets| == |f.code| && sets[0] == Below(EntryInitialized(f))
    ensures forall pc :: 0 < pc < |f.code| ==> sets[pc] == Below(f.registerCount)
  {
    seq(|f.code|, pc => if pc == 0 then Below(EntryInitialized(f)) else Below(f.registerCount))
  }

  lemma InitialWeight(f: Function)
    requires Wired(f)
    ensures Weight(InitialSets(f)) <= |f.code| * f.registerCount
  {
    WeightBound(InitialSets(f), f.registerCount);
  }

  /** Everything is initialized everywhere, except at entry. */
  method Initialize(f: Function) returns (facts: seq<seq<Word>>)
    requires Wired(f)
    ensures Represents(facts, InitialSets(f), WordsFor(f.registerCount))
  {
    hide Registers, InWords, Below;
    var full := new RegisterSet.Full(f.registerCount);
    var entry := new RegisterSet.Empty(f.registerCount);
    entry.InsertPrefix(EntryInitialized(f));
    assert {} + Below(EntryInitialized(f)) == Below(EntryInitialized(f));
    var top, first := full.words, entry.words;
    StandsIsRegisters(top, Below(f.registerCount));
    StandsIsRegisters(first, Below(EntryInitialized(f)));
    facts := seq(|f.code|, pc => if pc == 0 then first else top);
  }

  lemma OnAllRunsIsTarget(f: Function)
    requires Wired(f)
    ensures Target(f, OnAllRunsFamily(f))
  {
    OnAllRunsIsGreatestSolution(f);
    forall pc | 0 <= pc < |f.code|
      ensures Below(EntryInitialized(f)) <= OnAllRuns(f, pc) <= Below(f.registerCount)
    {
      EntryOnAllRuns(f, pc);
    }
  }

  /** Iterates to the fixpoint. The facts end up as exactly the all-runs facts, after at most
      instructions * registers + 1 rounds. */
  method Stabilize(f: Function) returns (facts: seq<seq<Word>>, ghost rounds: nat)
    requires Wired(f)
    ensures Represents(facts, OnAllRunsFamily(f), WordsFor(f.registerCount))
    ensures rounds <= |f.code| * f.registerCount + 1
  {
    ghost var goal := OnAllRunsFamily(f);
    OnAllRunsIsTarget(f);
    ghost var sets := InitialSets(f);
    facts := Initialize(f);
    InitialWeight(f);
    rounds := 0;
    var changed := true;
    while changed
      invariant Represents(facts, sets, WordsFor(f.registerCount)) && Above(f, goal, sets)
      invariant rounds + Weight(sets) <= |f.code| * f.registerCount + (if changed then 0 else 1)
      invariant !changed ==> Solution(f, sets)
      decreases changed, Weight(sets)
    {
      ghost var was, middle := sets, sets;
      var thrown;
      changed, facts, middle := TransferRound(f, facts, goal, was);
      thrown, facts, sets := HandlerRound(f, facts, goal, middle);
      ShrunkTwice(was, middle, sets, changed, thrown);
      changed := changed || thrown;
      WeightShrinks(sets, was);
      rounds := rounds + 1;
    }
    SolutionReachesGoal(f, sets);
  }

  lemma SolutionReachesGoal(f: Function, sets: seq<set<nat>>)
    requires Wired(f) && Solution(f, sets) && Above(f, OnAllRunsFamily(f), sets)
    ensures sets == OnAllRunsFamily(f)
  {
    forall pc | 0 <= pc < |f.code|
      ensures sets[pc] == OnAllRunsFamily(f)[pc]
    {
      SolutionBelowOnAllRuns(f, sets, pc);
    }
  }

  // ---- the read check

  datatype ReadBeforeWrite = ReadBeforeWrite(pc: nat, register: Register)

  /** Some run reaches the read with the register uninitialized. */
  ghost predicate IsUninitializedRead(f: Function, e: ReadBeforeWrite) {
    && e.pc < |f.code|
    && e.register in Reads(f.code[e.pc])
    && exists run :: IsRun(f, run) && Last(run).pc == e.pc && e.register !in Last(run).init
  }

  /** `r` is the first of the registers, in visiting order, that is not a member. */
  ghost predicate FirstOutside(operands: seq<Register>, members: set<nat>, r: Register) {
    exists k :: 0 <= k < |operands| && operands[k] == r && r !in members
                && forall j :: 0 <= j < k ==> operands[j] in members
  }

  /** The position of the first register, in reading order, that a fact does not contain. */
  method FirstMissing(operands: seq<Register>, fact: seq<Word>, ghost members: set<nat>) returns (missing: Option<nat>)
    requires Stands(fact, members)
    ensures missing.None? <==> forall k :: 0 <= k < |operands| ==> operands[k] in members
    ensures missing.Some? ==>
              && missing.value < |operands|
              && operands[missing.value] !in members
              && forall j :: 0 <= j < missing.value ==> operands[j] in members
  {
    missing := None;
    var before := new RegisterSet.Of(fact);
    StandsIsRegisters(fact, members);
    for k := 0 to |operands|
      invariant missing.None? ==> forall j :: 0 <= j < k ==> operands[j] in members
      invariant missing.Some? ==>
                  && missing.value < k
                  && operands[missing.value] !in members
                  && forall j :: 0 <= j < missing.value ==> operands[j] in members
    {
      if missing.None? && !before.Contains(operands[k]) {
        missing := Some(k);
      }
    }
  }

  lemma MissingFromSomeRun(f: Function, pc: nat, r: nat)
    requires r < f.registerCount && r !in OnAllRuns(f, pc)
    ensures exists run :: IsRun(f, run) && Last(run).pc == pc && r !in Last(run).init
  {
    if forall run :: IsRun(f, run) && Last(run).pc == pc ==> r in Last(run).init {
      assert r in Below(f.registerCount);
    }
  }

  /** Every read before `pc` is initialized on all runs. */
  ghost predicate ReadsInitializedBefore(f: Function, pc: int) {
    forall q, r :: 0 <= q < pc && q < |f.code| && r in Reads(f.code[q]) ==> r in OnAllRuns(f, q)
  }

  /** Checks every instruction's reads against its fact; reports the first one missing. */
  method CheckReads(f: Function, facts: seq<seq<Word>>, ghost goal: seq<set<nat>>) returns (e: Option<ReadBeforeWrite>)
    requires |goal| == |f.code| && Represents(facts, goal, WordsFor(f.registerCount))
    ensures e.None? <==> forall pc, r :: 0 <= pc < |f.code| && r in Reads(f.code[pc]) ==> r in goal[pc]
    ensures e.Some? ==>
              && e.value.pc < |f.code|
              && FirstOutside(Reads(f.code[e.value.pc]), goal[e.value.pc], e.value.register)
              && forall q, r :: 0 <= q < e.value.pc && r in Reads(f.code[q]) ==> r in goal[q]
  {
    hide Reads;
    for pc := 0 to |f.code|
      invariant forall q, r :: 0 <= q < pc && r in Reads(f.code[q]) ==> r in goal[q]
    {
      var operands := Reads(f.code[pc]);
      var missing := FirstMissing(operands, facts[pc], goal[pc]);
      if missing.Some? {
        return Some(ReadBeforeWrite(pc, operands[missing.value]));
      }
    }
    e := None;
  }

  lemma RepresentsCertificate(f: Function, facts: seq<seq<Word>>)
    requires Represents(facts, OnAllRunsFamily(f), WordsFor(f.registerCount))
    ensures IsCertificate(f, Certificate(f.registerCount, facts))
  {
    forall pc | 0 <= pc < |facts|
      ensures Registers(facts[pc]) == OnAllRuns(f, pc)
    {
      StandsIsRegisters(facts[pc], OnAllRuns(f, pc));
    }
  }

  /** The first read that some run reaches uninitialized: the first instruction that has one, and its
      first such operand. */
  ghost predicate IsFirstUninitializedRead(f: Function, e: ReadBeforeWrite) {
    && IsUninitializedRead(f, e)
    && ReadsInitializedBefore(f, e.pc)
    && FirstOutside(Reads(f.code[e.pc]), OnAllRuns(f, e.pc), e.register)
  }

  lemma OffendingRead(f: Function, e: ReadBeforeWrite)
    requires Wired(f) && e.pc < |f.code| && ReadsInitializedBefore(f, e.pc)
    requires FirstOutside(Reads(f.code[e.pc]), OnAllRuns(f, e.pc), e.register)
    ensures IsFirstUninitializedRead(f, e)
  {
    hide Reads, OnAllRuns, IsRun;
    var operands := Reads(f.code[e.pc]);
    var k :| 0 <= k < |operands| && operands[k] == e.register && e.register !in OnAllRuns(f, e.pc);
    assert e.register in operands;
    MissingFromSomeRun(f, e.pc, e.register);
  }

  /** The pass: a certificate if and only if every run is safe; otherwise the first offending read. */
  method DefiniteInitialization(f: Function) returns (r: Result<Certificate, ReadBeforeWrite>)
    requires Wired(f)
    ensures r.Ok? <==> RunsSafely(f)
    ensures r.Ok? ==> IsCertificate(f, r.value)
    ensures r.Err? ==> IsFirstUninitializedRead(f, r.error)
  {
    hide Wired, Reads, RunsSafely, OnAllRuns, IsRun, FirstOutside, IsFirstUninitializedRead, Represents;
    var facts, rounds := Stabilize(f);
    var e := CheckReads(f, facts, OnAllRunsFamily(f));
    SafeIffReadsOnAllRuns(f);
    if e.Some? {
      OffendingRead(f, e.value);
      r := Err(e.value);
    } else {
      RepresentsCertificate(f, facts);
      r := Ok(Certificate(f.registerCount, facts));
    }
  }
}
