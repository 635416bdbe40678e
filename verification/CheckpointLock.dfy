/** The per-ledger lock of src/audit/checkpoint.ts (`serialized`), with every `await` an
    interleaving point. */
module CheckpointLock {
  import opened Wrappers

  /** A call that waits for `previous` to settle, runs its operation, or has released its gate.
      Its tail settles once the one before it has settled and its own gate is open. */
  datatype Phase = Waiting | Running | Released

  datatype Call = Call(previous: Option<nat>, phase: Phase)

  datatype State = State(calls: seq<Call>, ledgerTail: Option<nat>)

  datatype Step = Enter | Start(call: nat) | Release(call: nat)

  const Initial := State([], None)

  /** A tail settles when its call and everything it waited for are released. */
  predicate Settled(calls: seq<Call>, tail: Option<nat>)
    decreases if tail.None? then 0 else tail.value + 1
  {
    tail.None?
    || (tail.value < |calls| && calls[tail.value].phase.Released?
        && (calls[tail.value].previous.Some? ==> calls[tail.value].previous.value < tail.value)
        && Settled(calls, calls[tail.value].previous))
  }

  function Next(s: State, step: Step): Option<State> {
    match step
    case Enter => Some(State(s.calls + [Call(s.ledgerTail, Waiting)], Some(|s.calls|)))
    case Start(i) =>
      if i < |s.calls| && s.calls[i].phase.Waiting? && Settled(s.calls, s.calls[i].previous) then
        Some(s.(calls := s.calls[i := s.calls[i].(phase := Running)]))
      else None
    case Release(i) =>
      if i < |s.calls| && s.calls[i].phase.Running? then
        Some(State(s.calls[i := s.calls[i].(phase := Released)],
                   if s.ledgerTail == Some(i) then None else s.ledgerTail))
      else None
  }

  function Run(steps: seq<Step>): Option<State> {
    if steps == [] then Some(Initial)
    else
      var before := Run(steps[..|steps| - 1]);
      if before.None? then None else Next(before.value, steps[|steps| - 1])
  }

  /** A call waits for the one right before it, unless everything before it was over when it
      entered; and whatever has started, everything before it has been released. */
  ghost predicate Queued(s: State) {
    && (s.ledgerTail.None? ==> forall i :: 0 <= i < |s.calls| ==> s.calls[i].phase.Released?)
    && (s.ledgerTail.Some? ==> s.ledgerTail.value + 1 == |s.calls| && !s.calls[s.ledgerTail.value].phase.Released?)
    && (forall i, j :: 0 <= j < i < |s.calls| && !s.calls[i].phase.Waiting? ==> s.calls[j].phase.Released?)
    && (forall i :: 0 <= i < |s.calls| ==>
          s.calls[i].previous == (if i == 0 then None else Some(i - 1))
          || (s.calls[i].previous.None? && forall j :: 0 <= j < i ==> s.calls[j].phase.Released?))
  }

  /** When a call may start, everything before it has been released. */
  lemma {:induction false} ReadyMeansFirst(s: State, i: nat, j: nat)
    requires Queued(s) && j < i < |s.calls| && Settled(s.calls, s.calls[i].previous)
    ensures s.calls[j].phase.Released?
  {
    if s.calls[i].previous.Some? {
      assert s.calls[i - 1].phase.Released?;
    }
  }

  lemma {:induction false} StepKeepsQueue(s: State, step: Step)
    requires Queued(s) && Next(s, step).Some?
    ensures Queued(Next(s, step).value)
  {
    if step.Start? {
      forall j | 0 <= j < step.call
        ensures s.calls[j].phase.Released?
      {
        ReadyMeansFirst(s, step.call, j);
      }
    }
  }

  lemma {:induction false} RunKeepsQueue(steps: seq<Step>)
    requires Run(steps).Some?
    ensures Queued(Run(steps).value)
  {
    if steps != [] {
      RunKeepsQueue(steps[..|steps| - 1]);
      StepKeepsQueue(Run(steps[..|steps| - 1]).value, steps[|steps| - 1]);
    }
  }

  /** Over every run, the operations of one ledger run one at a time and in the order of the
      calls, although the tail is forgotten whenever the last call is over. */
  lemma {:induction false} OneAtATimeInOrder(steps: seq<Step>, i: nat, j: nat)
    requires Run(steps).Some?
    requires var calls := Run(steps).value.calls; j < i < |calls| && !calls[i].phase.Waiting?
    ensures Run(steps).value.calls[j].phase.Released?
  {
    RunKeepsQueue(steps);
  }

  /** The lock keeps nothing behind: its tail is forgotten exactly when every call is over. */
  lemma {:induction false} TailIsForgottenExactly(steps: seq<Step>)
    requires Run(steps).Some?
    ensures var s := Run(steps).value;
      s.ledgerTail == None <==> forall i :: 0 <= i < |s.calls| ==> s.calls[i].phase.Released?
  {
    RunKeepsQueue(steps);
  }

  lemma {:induction false} ReleasedPrefixSettles(s: State, i: nat)
    requires Queued(s) && i < |s.calls| && forall j :: 0 <= j < i ==> s.calls[j].phase.Released?
    ensures Settled(s.calls, s.calls[i].previous)
  {
    if s.calls[i].previous.Some? {
      assert i > 0;
      ReleasedPrefixSettles(s, i - 1);
    }
  }

  /** The first call up to i that has not been released is running, or it may start. */
  lemma {:induction false} FirstUnreleasedProceeds(s: State, i: nat)
    requires Queued(s) && i < |s.calls| && !s.calls[i].phase.Released?
    ensures exists j :: 0 <= j <= i && (s.calls[j].phase.Running? || Next(s, Start(j)).Some?)
  {
    if j :| 0 <= j < i && !s.calls[j].phase.Released? {
      FirstUnreleasedProceeds(s, j);
    } else if s.calls[i].phase.Waiting? {
      ReleasedPrefixSettles(s, i);
      assert Next(s, Start(i)).Some?;
    }
  }

  /** Nobody waits for ever: over every run, while a call waits, an earlier one is running or one
      up to it may start; and when everything before it has been released, it may start itself. */
  lemma {:induction false} SomeoneMayProceed(steps: seq<Step>, i: nat)
    requires Run(steps).Some?
    requires var calls := Run(steps).value.calls; i < |calls| && calls[i].phase.Waiting?
    ensures var s := Run(steps).value;
      && (exists j :: 0 <= j <= i && (s.calls[j].phase.Running? || Next(s, Start(j)).Some?))
      && ((forall j :: 0 <= j < i ==> s.calls[j].phase.Released?) ==> Next(s, Start(i)).Some?)
  {
    RunKeepsQueue(steps);
    var s := Run(steps).value;
    FirstUnreleasedProceeds(s, i);
    if forall j :: 0 <= j < i ==> s.calls[j].phase.Released? {
      ReleasedPrefixSettles(s, i);
    }
  }
}
