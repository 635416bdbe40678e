/** Lifecycle hooks of `createCheckpoint` in src/audit/checkpoint.ts, with every `await` of a
    hook an interleaving point. Checkpoints are named by their tree sizes. */
module CheckpointHooks {
  import opened Wrappers

  type Size = nat

  /** One `createCheckpoint` call after its checkpoint was stored: not yet resumed, awaiting the
      hook of the first of `due`, or over. */
  datatype Call = Stored(own: seq<Size>) | Running(due: seq<Size>) | Over

  datatype State = State(
    calls: seq<Call>,
    failedHooks: seq<Size>,
    completed: seq<Size>,   // hooks that returned, in order
    inserted: seq<Size>)    // checkpoints the store inserted, in lock order

  datatype Step =
    | StoreInserts(size: Size)
    | StoreFindsLatest
    | Resume(call: nat)
    | HookReturns(call: nat)
    | HookThrows(call: nat)
    | Return(call: nat)

  const Start := State([], [], [], [])

  function Next(s: State, step: Step): Option<State> {
    match step
    case StoreInserts(size) =>
      if forall c :: c in s.inserted ==> c < size then
        Some(s.(calls := s.calls + [Stored([size])], inserted := s.inserted + [size]))
      else None
    case StoreFindsLatest =>
      Some(s.(calls := s.calls + [Stored([])]))
    case Resume(i) =>
      if i < |s.calls| && s.calls[i].Stored? then
        Some(s.(calls := s.calls[i := Running(s.failedHooks + s.calls[i].own)], failedHooks := []))
      else None
    case HookReturns(i) =>
      if i < |s.calls| && s.calls[i].Running? && s.calls[i].due != [] then
        Some(s.(calls := s.calls[i := Running(s.calls[i].due[1..])],
                completed := s.completed + [s.calls[i].due[0]]))
      else None
    case HookThrows(i) =>
      if i < |s.calls| && s.calls[i].Running? && s.calls[i].due != [] then
        Some(s.(calls := s.calls[i := Over], failedHooks := s.calls[i].due + s.failedHooks))
      else None
    case Return(i) =>
      if i < |s.calls| && s.calls[i].Running? && s.calls[i].due == [] then
        Some(s.(calls := s.calls[i := Over]))
      else None
  }

  /** The state after a whole run, or None when some step was not enabled. */
  function Run(steps: seq<Step>): Option<State> {
    if steps == [] then Some(Start)
    else
      var before := Run(steps[..|steps| - 1]);
      if before.None? then None else Next(before.value, steps[|steps| - 1])
  }

  lemma {:induction false} RunSnoc(steps: seq<Step>, step: Step)
    ensures Run(steps + [step]) == if Run(steps).None? then None else Next(Run(steps).value, step)
  {
    assert (steps + [step])[..|steps|] == steps;
  }

  function Work(call: Call): seq<Size> {
    match call case Stored(own) => own case Running(due) => due case Over => []
  }

  /** Everything that some call still has to run. */
  function Held(calls: seq<Call>): multiset<Size> {
    if calls == [] then multiset{}
    else Held(calls[..|calls| - 1]) + multiset(Work(calls[|calls| - 1]))
  }

  lemma {:induction false} HeldUpdateAt(calls: seq<Call>, i: nat, call: Call, x: Size)
    requires i < |calls|
    ensures multiset(Work(calls[i]))[x] <= Held(calls)[x]
    ensures Held(calls[i := call])[x] == Held(calls)[x] - multiset(Work(calls[i]))[x] + multiset(Work(call))[x]
  {
    var n := |calls| - 1;
    if i < n {
      HeldUpdateAt(calls[..n], i, call, x);
      assert calls[i := call][..n] == calls[..n][i := call];
    } else {
      assert calls[i := call][..n] == calls[..n];
    }
  }

  lemma {:induction false} HeldUpdate(calls: seq<Call>, i: nat, call: Call)
    requires i < |calls|
    ensures multiset(Work(calls[i])) <= Held(calls)
    ensures Held(calls[i := call]) == Held(calls) - multiset(Work(calls[i])) + multiset(Work(call))
  {
    forall x
      ensures multiset(Work(calls[i]))[x] <= Held(calls)[x]
      ensures Held(calls[i := call])[x] == Held(calls)[x] - multiset(Work(calls[i]))[x] + multiset(Work(call))[x]
    {
      HeldUpdateAt(calls, i, call, x);
    }
  }

  lemma {:induction false} HeldSnoc(calls: seq<Call>, call: Call)
    ensures Held(calls + [call]) == Held(calls) + multiset(Work(call))
  {
    assert (calls + [call])[..|calls|] == calls;
  }

  ghost predicate Conserved(s: State) {
    && (forall i, j :: 0 <= i < j < |s.inserted| ==> s.inserted[i] < s.inserted[j])
    && multiset(s.inserted) == multiset(s.completed) + multiset(s.failedHooks) + Held(s.calls)
  }

  lemma {:induction false} StepConserves(s: State, step: Step)
    requires Conserved(s) && Next(s, step).Some?
    ensures Conserved(Next(s, step).value)
  {
    match step {
      case StoreInserts(size) => InsertConserves(s, size);
      case StoreFindsLatest => HeldSnoc(s.calls, Stored([]));
      case Resume(i) => ResumeConserves(s, i);
      case HookReturns(i) => HookReturnsConserves(s, i);
      case HookThrows(i) => HookThrowsConserves(s, i);
      case Return(i) => ReturnConserves(s, i);
    }
  }

  lemma {:induction false} InsertConserves(s: State, size: Size)
    requires Conserved(s) && Next(s, StoreInserts(size)).Some?
    ensures Conserved(Next(s, StoreInserts(size)).value)
  {
    HeldSnoc(s.calls, Stored([size]));
    assert multiset(Work(Stored([size]))) == multiset{size};
    assert multiset(s.inserted + [size]) == multiset(s.inserted) + multiset{size};
    forall i, j | 0 <= i < j < |s.inserted + [size]|
      ensures (s.inserted + [size])[i] < (s.inserted + [size])[j]
    {
      assert s.inserted[i] in s.inserted;
    }
  }

  lemma {:induction false} ReturnConserves(s: State, i: nat)
    requires Conserved(s) && Next(s, Return(i)).Some?
    ensures Conserved(Next(s, Return(i)).value)
  {
    HeldUpdate(s.calls, i, Over);
  }

  lemma {:induction false} ResumeConserves(s: State, i: nat)
    requires Conserved(s) && Next(s, Resume(i)).Some?
    ensures Conserved(Next(s, Resume(i)).value)
  {
    HeldUpdate(s.calls, i, Running(s.failedHooks + s.calls[i].own));
  }

  lemma {:induction false} HookReturnsConserves(s: State, i: nat)
    requires Conserved(s) && Next(s, HookReturns(i)).Some?
    ensures Conserved(Next(s, HookReturns(i)).value)
  {
    var due := s.calls[i].due;
    assert due == [due[0]] + due[1..];
    HeldUpdate(s.calls, i, Running(due[1..]));
  }

  lemma {:induction false} HookThrowsConserves(s: State, i: nat)
    requires Conserved(s) && Next(s, HookThrows(i)).Some?
    ensures Conserved(Next(s, HookThrows(i)).value)
  {
    HeldUpdate(s.calls, i, Over);
  }

  lemma {:induction false} RunConserves(steps: seq<Step>)
    requires Run(steps).Some?
    ensures Conserved(Run(steps).value)
  {
    if steps != [] {
      RunConserves(steps[..|steps| - 1]);
      StepConserves(Run(steps[..|steps| - 1]).value, steps[|steps| - 1]);
    }
  }

  lemma {:induction false} IncreasingOnce(sizes: seq<Size>, c: Size)
    requires forall i, j :: 0 <= i < j < |sizes| ==> sizes[i] < sizes[j]
    ensures multiset(sizes)[c] == if c in sizes then 1 else 0
  {
    if sizes != [] {
      var n := |sizes| - 1;
      assert sizes == sizes[..n] + [sizes[n]];
      IncreasingOnce(sizes[..n], c);
    }
  }

  /** In every run, an inserted checkpoint is in exactly one place: its hook has completed
      (once), some call still holds it, or it waits in `failedHooks` for the next call. */
  lemma {:induction false} HookConservation(steps: seq<Step>, c: Size)
    requires Run(steps).Some?
    ensures var s := Run(steps).value;
      multiset(s.completed)[c] + multiset(s.failedHooks)[c] + Held(s.calls)[c]
      == if c in s.inserted then 1 else 0
  {
    RunConserves(steps);
    IncreasingOnce(Run(steps).value.inserted, c);
  }

  /** The state once the next n hooks of a running call have completed. */
  function AfterHooks(s: State, i: nat, n: nat): State
    requires i < |s.calls| && s.calls[i].Running? && n <= |s.calls[i].due|
  {
    s.(calls := s.calls[i := Running(s.calls[i].due[n..])], completed := s.completed + s.calls[i].due[..n])
  }

  lemma {:induction false} OneMoreHook(s: State, i: nat, n: nat)
    requires i < |s.calls| && s.calls[i].Running? && n < |s.calls[i].due|
    ensures Next(AfterHooks(s, i, n), HookReturns(i)) == Some(AfterHooks(s, i, n + 1))
  {
    var due := s.calls[i].due;
    assert due[n..][1..] == due[n + 1..] && due[n..][0] == due[n];
    assert s.completed + due[..n] + [due[n]] == s.completed + due[..n + 1];
    assert s.calls[i := Running(due[n..])][i := Running(due[n + 1..])] == s.calls[i := Running(due[n + 1..])];
  }

  lemma {:induction false} NoMoreHooks(s: State, i: nat)
    requires i < |s.calls| && s.calls[i].Running?
    ensures AfterHooks(s, i, 0) == s
  {
    assert s.calls[i].due[0..] == s.calls[i].due && s.completed + s.calls[i].due[..0] == s.completed;
  }

  /** The state after n hooks of a call returned, one after another. */
  function HooksReturned(s: State, i: nat, n: nat): Option<State> {
    if n == 0 then Some(s)
    else
      var before := HooksReturned(s, i, n - 1);
      if before.None? then None else Next(before.value, HookReturns(i))
  }

  lemma {:induction false} HooksComplete(s: State, i: nat, n: nat)
    requires i < |s.calls| && s.calls[i].Running? && n <= |s.calls[i].due|
    ensures HooksReturned(s, i, n) == Some(AfterHooks(s, i, n))
  {
    if n == 0 {
      NoMoreHooks(s, i);
    } else {
      HooksComplete(s, i, n - 1);
      OneMoreHook(s, i, n - 1);
    }
  }

  lemma {:induction false} HooksThenReturn(s: State, i: nat, due: seq<Size>)
    requires i < |s.calls| && s.calls[i] == Running(due)
    ensures Next(AfterHooks(s, i, |due|), Return(i))
         == Some(s.(calls := s.calls[i := Over], completed := s.completed + due))
  {
    assert due[|due|..] == [] && due[..|due|] == due;
    assert s.calls[i := Running([])][i := Over] == s.calls[i := Over];
  }

  /** A call that resumes can always go on, and unless a hook throws or another call interferes, the
      hooks that failed before complete in their order and then its own, and it is over. */
  lemma {:induction false} UndisturbedCallCompletes(s: State, i: nat)
    requires i < |s.calls| && s.calls[i].Stored?
    ensures var (due, resumed) := (s.failedHooks + s.calls[i].own, Next(s, Resume(i)));
      && resumed.Some?
      && var last := HooksReturned(resumed.value, i, |due|);
      && last.Some? && Next(last.value, Return(i))
                       == Some(s.(calls := s.calls[i := Over], failedHooks := [], completed := s.completed + due))
  {
    var due := s.failedHooks + s.calls[i].own;
    var resumed := s.(calls := s.calls[i := Running(due)], failedHooks := []);
    assert Next(s, Resume(i)) == Some(resumed);
    HooksComplete(resumed, i, |due|);
    HooksThenReturn(resumed, i, due);
    assert s.calls[i := Running(due)][i := Over] == s.calls[i := Over];
  }

  // ---- Order -------------------------------------------------------------------------

  predicate Increasing(sizes: seq<Size>) {
    forall i, j :: 0 <= i < j < |sizes| ==> sizes[i] < sizes[j]
  }

  predicate AllBelow(a: seq<Size>, b: seq<Size>) {
    forall i, j :: 0 <= i < |a| && 0 <= j < |b| ==> a[i] < b[j]
  }

  /** Failed hooks wait oldest first, and every call works oldest first. */
  predicate OldestFirst(s: State) {
    Increasing(s.failedHooks) && forall c :: 0 <= c < |s.calls| ==> Increasing(Work(s.calls[c]))
  }

  /** The two steps that can put a newer hook before an older one: a call that picks up a failed
      hook newer than its own checkpoint, and a failure while something older has failed since. */
  predicate Disorders(s: State, step: Step) {
    match step
    case Resume(i) => i < |s.calls| && s.calls[i].Stored? && !AllBelow(s.failedHooks, s.calls[i].own)
    case HookThrows(i) => i < |s.calls| && s.calls[i].Running? && !AllBelow(s.calls[i].due, s.failedHooks)
    case _ => false
  }

  lemma {:induction false} IncreasingConcat(a: seq<Size>, b: seq<Size>)
    ensures Increasing(a + b) <==> Increasing(a) && Increasing(b) && AllBelow(a, b)
  {
    var all := a + b;
    if Increasing(all) {
      assert forall i :: 0 <= i < |a| ==> all[i] == a[i];
      assert forall j :: 0 <= j < |b| ==> all[|a| + j] == b[j];
    }
  }

  lemma {:induction false} OrderAfterCall(s: State, i: nat, call: Call, failed: seq<Size>)
    requires OldestFirst(s) && i < |s.calls|
    ensures OldestFirst(s.(calls := s.calls[i := call], failedHooks := failed)) <==>
      Increasing(failed) && Increasing(Work(call))
  {
    var after := s.calls[i := call];
    assert after[i] == call;
  }

  /** A step keeps the order exactly when it is not one of those two. */
  lemma {:induction false} StepKeepsOrderExactly(s: State, step: Step)
    requires OldestFirst(s) && Next(s, step).Some?
    ensures OldestFirst(Next(s, step).value) <==> !Disorders(s, step)
  {
    match step {
      case StoreInserts(_) =>
      case StoreFindsLatest =>
      case Resume(i) =>
        IncreasingConcat(s.failedHooks, s.calls[i].own);
        OrderAfterCall(s, i, Running(s.failedHooks + s.calls[i].own), []);
      case HookReturns(i) =>
        OrderAfterCall(s, i, Running(s.calls[i].due[1..]), s.failedHooks);
      case HookThrows(i) =>
        IncreasingConcat(s.calls[i].due, s.failedHooks);
        OrderAfterCall(s, i, Over, s.calls[i].due + s.failedHooks);
      case Return(i) =>
        OrderAfterCall(s, i, Over, s.failedHooks);
    }
  }

  ghost predicate OrderedThroughout(steps: seq<Step>) {
    Run(steps).Some? && OldestFirst(Run(steps).value)
    && (steps != [] ==> OrderedThroughout(steps[..|steps| - 1]))
  }

  ghost predicate NeverDisordered(steps: seq<Step>) {
    Run(steps).Some?
    && (steps != [] ==>
          NeverDisordered(steps[..|steps| - 1])
          && !Disorders(Run(steps[..|steps| - 1]).value, steps[|steps| - 1]))
  }

  /** Over every run, hooks stay oldest first at every moment if and only if none of its steps is
      one of the two that disturb the order. */
  lemma {:induction false} HooksStayOldestFirst(steps: seq<Step>)
    requires Run(steps).Some?
    ensures OrderedThroughout(steps) <==> NeverDisordered(steps)
  {
    if steps != [] {
      var n := |steps| - 1;
      HooksStayOldestFirst(steps[..n]);
      if OrderedThroughout(steps[..n]) {
        StepKeepsOrderExactly(Run(steps[..n]).value, steps[n]);
      }
    }
  }

  predicate AllOver(s: State) {
    forall i :: 0 <= i < |s.calls| ==> s.calls[i].Over?
  }

  /** No call's checkpoint is stored before every earlier call is over. */
  predicate NonOverlapping(steps: seq<Step>) {
    forall n :: 0 <= n < |steps| && (steps[n].StoreInserts? || steps[n].StoreFindsLatest?) ==>
      Run(steps[..n]).Some? && AllOver(Run(steps[..n]).value)
  }

  ghost predicate InOrder(s: State) {
    var n := |s.calls| - 1;
    && (forall i :: 0 <= i < n ==> s.calls[i].Over?)
    && s.inserted == (
       if n < 0 || s.calls[n].Over? then s.completed + s.failedHooks
       else if s.calls[n].Stored? then s.completed + s.failedHooks + s.calls[n].own
       else s.completed + s.calls[n].due)
    && (n >= 0 && s.calls[n].Running? ==> s.failedHooks == [])
  }

  lemma {:induction false} SequentialInOrder(steps: seq<Step>)
    requires Run(steps).Some? && NonOverlapping(steps)
    ensures InOrder(Run(steps).value)
  {
    if steps != [] {
      var n := |steps| - 1;
      var before := Run(steps[..n]).value;
      assert forall k :: 0 <= k <= n ==> steps[..n][..k] == steps[..k];
      assert forall k :: 0 <= k < n ==> steps[..n][k] == steps[k];
      SequentialInOrder(steps[..n]);
      StepInOrder(before, steps[n]);
    }
  }

  lemma {:induction false} StepInOrder(s: State, step: Step)
    requires InOrder(s) && Next(s, step).Some?
    requires step.StoreInserts? || step.StoreFindsLatest? ==> AllOver(s)
    ensures InOrder(Next(s, step).value)
  {
    if step.HookReturns? {
      var due := s.calls[step.call].due;
      assert due == [due[0]] + due[1..];
    }
  }

  lemma {:induction false} PartsIncrease(a: seq<Size>, b: seq<Size>, c: seq<Size>, all: seq<Size>)
    requires all == a + b + c && Increasing(all)
    ensures AllBelow(b, c)
  {
    IncreasingConcat(a + b, c);
    forall i, j | 0 <= i < |b| && 0 <= j < |c|
      ensures b[i] < c[j]
    {
      assert (a + b)[|a| + i] == b[i];
    }
  }

  lemma {:induction false} InOrderNeverDisorders(s: State, step: Step)
    requires InOrder(s) && Increasing(s.inserted) && Next(s, step).Some?
    ensures !Disorders(s, step)
  {
    if step.Resume? {
      PartsIncrease(s.completed, s.failedHooks, s.calls[step.call].own, s.inserted);
    }
  }

  lemma {:induction false} NonOverlappingPrefix(steps: seq<Step>, n: nat)
    requires NonOverlapping(steps) && n <= |steps|
    ensures NonOverlapping(steps[..n])
  {
    assert forall k :: 0 <= k <= n ==> steps[..n][..k] == steps[..k];
    assert forall k :: 0 <= k < n ==> steps[..n][k] == steps[k];
  }

  lemma {:induction false} SequentialNeverDisordered(steps: seq<Step>)
    requires Run(steps).Some? && NonOverlapping(steps)
    ensures NeverDisordered(steps)
  {
    if steps != [] {
      var n := |steps| - 1;
      NonOverlappingPrefix(steps, n);
      SequentialNeverDisordered(steps[..n]);
      SequentialInOrder(steps[..n]);
      RunConserves(steps[..n]);
      InOrderNeverDisorders(Run(steps[..n]).value, steps[n]);
    }
  }

  /** When calls do not overlap, hooks stay oldest first, complete in tree-size order with none
      skipped, and once a call is over with nothing failed, every stored checkpoint's hook has
      completed. */
  lemma {:induction false} SequentialHooksComplete(steps: seq<Step>)
    requires Run(steps).Some? && NonOverlapping(steps)
    ensures OrderedThroughout(steps)
    ensures var s := Run(steps).value;
      && s.completed <= s.inserted
      && (AllOver(s) && s.failedHooks == [] ==> s.completed == s.inserted)
  {
    SequentialNeverDisordered(steps);
    HooksStayOldestFirst(steps);
    SequentialInOrder(steps);
  }

  /** Overlapping calls can put a newer failed hook before an older one, so the next call runs
      the newer one first. */
  lemma OverlapBreaksOrder()
    ensures exists steps ::
      && Run(steps).Some? && AllOver(Run(steps).value)
      && Run(steps).value.inserted == [1, 2] && Run(steps).value.failedHooks == [2, 1]
  {
    var s1 := [StoreInserts(1)];
    var s2 := s1 + [Resume(0)];
    var s3 := s2 + [StoreInserts(2)];
    var s4 := s3 + [Resume(1)];
    var s5 := s4 + [HookThrows(0)];
    RunSnoc([], StoreInserts(1));
    RunSnoc(s1, Resume(0));
    RunSnoc(s2, StoreInserts(2));
    RunSnoc(s3, Resume(1));
    RunSnoc(s4, HookThrows(0));
    RunSnoc(s5, HookThrows(1));
    assert [] + [StoreInserts(1)] == s1;
    var r1 := Run(s1).value;
    assert r1.calls == [Stored([1])] && r1.inserted == [1] && r1.failedHooks == [];
    var r2 := Run(s2).value;
    assert r2.calls[0].due == [1];
    assert r2.calls == [Running([1])] && r2.inserted == [1] && r2.failedHooks == [];
    var r3 := Run(s3).value;
    assert r3.calls == [Running([1]), Stored([2])] && r3.inserted == [1, 2] && r3.failedHooks == [];
    var r4 := Run(s4).value;
    assert r4.calls[1].due == [2];
    assert r4.calls == [Running([1]), Running([2])] && r4.inserted == [1, 2] && r4.failedHooks == [];
    var r5 := Run(s5).value;
    assert r5.calls == [Over, Running([2])] && r5.inserted == [1, 2] && r5.failedHooks == [1];
    var r6 := Run(s5 + [HookThrows(1)]).value;
    assert r6.calls == [Over, Over] && r6.inserted == [1, 2] && r6.failedHooks == [2, 1];
  }
}
