/** Any number of recorders and submissions over one shared journal, every `await` of
    `appendEvent` in src/audit/recorder-service.ts an interleaving point. */
module RecorderRuns {
  import opened Wrappers
  import opened Hashing
  import opened Journal
  import opened Recorder

  /** Where one `appendEvent` call is. `known` is what its recorder knew when the current attempt
      began. */
  datatype Phase =
    | Started
    | Looping(attempt: nat)
    | AwaitingHead(attempt: nat, known: Known)
    | CheckingRace(attempt: nat, known: Known, head: Option<Head>)
    | Appending(attempt: nat, known: Known, head: Option<Head>, candidate: Entry)
    | Answered(attempt: nat, known: Known, head: Option<Head>, result: AppendResult)
    | Done(outcome: Outcome)

  datatype Call = Call(recorder: nat, request: Request, phase: Phase)

  datatype State = State(records: seq<Record>, recorders: seq<Known>, calls: seq<Call>)

  /** A step of call `c`. Reads carry the view of the journal they were served from. */
  datatype Step =
    | Submit(recorder: nat, request: Request)
    | LookUp(c: nat, view: seq<Record>)
    | BeginAttempt(c: nat)
    | ReadHead(c: nat, view: seq<Record>, now: int)
    | LookUpAgain(c: nat, view: seq<Record>, now: int)
    | Append(c: nat)
    | AppendThrows(c: nat, applied: bool)
    | Settle(c: nat)
    | JournalReplaced(records: seq<Record>)

  datatype System = System(digests: Digests, maxAppendConflicts: nat, recorders: nat)

  function Start(system: System): State {
    State([], seq(system.recorders, i => Known(None, None)), [])
  }

  function Build(system: System, call: Call, attempt: nat, known: Known, head: Option<Head>, now: int): Phase {
    match BuildCandidate(system.digests, call.request.event, head, now)
    case Rejected(failure) => Done(Failed(failure))
    case Candidate(entry) => Appending(attempt, known, head, entry)
  }

  /** How a call goes on once its compare-and-append has answered. */
  function Handled(system: System, call: Call): Phase
    requires call.phase.Answered?
  {
    var Answered(attempt, known, head, result) := call.phase;
    match result
    case Appended(entry) => Done(Returned(entry))
    case Duplicate(entry) => Done(Resolve(system.digests, call.request, entry))
    case IdempotencyConflict(existing) => Done(Resolve(system.digests, call.request, existing))
    case HeadConflict(actual) =>
      if Regressed(actual, known) then Done(Failed(Regression))
      else if SameHead(head, actual) then Done(Failed(NoAdvance))
      else if attempt + 1 > system.maxAppendConflicts then Done(Failed(RetriesExhausted))
      else Looping(attempt + 1)
  }

  /** What the recorder of a call learns from its answer. */
  function Learned(known: Known, phase: Phase): Known
    requires phase.Answered?
  {
    match phase.result
    case Appended(entry) =>
      Known(HigherHead(known.committed, HeadAfter(entry)), HigherHead(known.reported, HeadAfter(entry)))
    case HeadConflict(actual) =>
      if Regressed(actual, phase.known) then known
      else known.(reported := HigherHead(known.reported, actual))
    case _ => known
  }

  /** What one step of a call makes of the journal and of the call's phase. */
  function CallStep(system: System, s: State, call: Call, step: Step): Option<(seq<Record>, Phase)>
    requires call.recorder < |s.recorders|
  {
    var request := call.request;
    match (call.phase, step)
    case (Started, LookUp(_, view)) =>
      var found := Lookup(view, request.key);
      Some((s.records, if found.Some? then Done(Resolve(system.digests, request, found.value)) else Looping(0)))
    case (Looping(attempt), BeginAttempt(_)) =>
      Some((s.records, AwaitingHead(attempt, s.recorders[call.recorder])))
    case (AwaitingHead(attempt, known), ReadHead(_, view, now)) =>
      var head := HigherHead(known.committed, HeadOf(view));
      Some((s.records,
            if request.event.Genesis? && head.Some? then CheckingRace(attempt, known, head)
            else Build(system, call, attempt, known, head, now)))
    case (CheckingRace(attempt, known, head), LookUpAgain(_, view, now)) =>
      var raced := Lookup(view, request.key);
      Some((s.records,
            if raced.Some? then Done(Resolve(system.digests, request, raced.value))
            else Build(system, call, attempt, known, head, now)))
    case (Appending(attempt, known, head, candidate), Append(_)) =>
      var (records, result) := AppendTo(s.records, head, candidate, request.key);
      Some((records, Answered(attempt, known, head, result)))
    case (Appending(_, _, head, candidate), AppendThrows(_, applied)) =>
      var records := if applied then AppendTo(s.records, head, candidate, request.key).0 else s.records;
      Some((records, Done(Failed(AppendThrew))))
    case _ => None
  }

  function Next(system: System, s: State, step: Step): Option<State> {
    match step
    case Submit(recorder, request) =>
      if recorder < |s.recorders| then Some(s.(calls := s.calls + [Call(recorder, request, Started)])) else None
    case JournalReplaced(records) =>
      Some(s.(records := records))
    case Settle(c) =>
      if c < |s.calls| && s.calls[c].recorder < |s.recorders| && s.calls[c].phase.Answered? then
        var call := s.calls[c];
        Some(State(s.records,
                   s.recorders[call.recorder := Learned(s.recorders[call.recorder], call.phase)],
                   s.calls[c := call.(phase := Handled(system, call))]))
      else None
    case _ =>
      if step.c < |s.calls| && s.calls[step.c].recorder < |s.recorders| then
        var call := s.calls[step.c];
        var after := CallStep(system, s, call, step);
        if after.None? then None
        else Some(s.(records := after.value.0, calls := s.calls[step.c := call.(phase := after.value.1)]))
      else None
  }

  /** An append-only linearizable journal whose reads may lag. */
  predicate Honest(s: State, step: Step) {
    && !step.JournalReplaced?
    && (step.LookUp? || step.ReadHead? || step.LookUpAgain? ==> step.view <= s.records)
  }

  function Run(system: System, steps: seq<Step>): Option<State> {
    if steps == [] then Some(Start(system))
    else
      var before := Run(system, steps[..|steps| - 1]);
      if before.None? then None else Next(system, before.value, steps[|steps| - 1])
  }

  ghost predicate HonestRun(system: System, steps: seq<Step>) {
    Run(system, steps).Some?
    && (steps != [] ==>
          HonestRun(system, steps[..|steps| - 1])
          && Honest(Run(system, steps[..|steps| - 1]).value, steps[|steps| - 1]))
  }

  // ---- The invariant -----------------------------------------------------------------

  /** A head that the journal really had, at this or an earlier moment. */
  ghost predicate Was(records: seq<Record>, head: Option<Head>) {
    head.Some? ==>
      head.value.sequence < |records| && records[head.value.sequence].entry.entryDigest == head.value.entryDigest
  }

  ghost predicate WasKnown(records: seq<Record>, known: Known) {
    Was(records, known.committed) && Was(records, known.reported)
  }

  /** The entry a call may return: the one recorded under its identity, with its content. */
  ghost predicate Settles(digests: Digests, records: seq<Record>, request: Request, entry: Entry) {
    && Record(request.key, entry) in records
    && (if request.event.Genesis? then entry.core.sequence == 0 else entry.eventDigest == digests.event(request.event))
  }

  ghost predicate GoodResult(
    digests: Digests, records: seq<Record>, request: Request, known: Known, head: Option<Head>, result: AppendResult)
  {
    match result
    case Appended(entry) => Settles(digests, records, request, entry)
    case Duplicate(entry) => Record(request.key, entry) in records
    case IdempotencyConflict(existing) => Record(request.key, existing) in records
    case HeadConflict(actual) =>
      && Was(records, actual) && actual != head
      && (known.committed.Some? ==> actual.Some? && known.committed.value.sequence <= actual.value.sequence)
  }

  ghost predicate GoodOutcome(digests: Digests, records: seq<Record>, request: Request, outcome: Outcome) {
    match outcome
    case Returned(entry) => Settles(digests, records, request, entry)
    case Failed(failure) =>
      && failure != Regression && failure != NoAdvance
      && (failure == EventIdConflict || failure == GenesisMismatch ==>
            && (failure == GenesisMismatch <==> request.event.Genesis?)
            && exists entry :: Record(request.key, entry) in records && !IsTheOneAskedFor(digests, request, entry))
      && (failure == GenesisNotFirst ==> request.event.Genesis? && records != [])
      && (failure == ReplacesGenesis ==> request.event.Produced?)
  }

  ghost predicate GoodPhase(digests: Digests, records: seq<Record>, request: Request, phase: Phase) {
    match phase
    case Started => true
    case Looping(_) => true
    case AwaitingHead(_, known) => WasKnown(records, known)
    case CheckingRace(_, known, head) => WasKnown(records, known) && Was(records, head)
    case Appending(_, known, head, candidate) =>
      && WasKnown(records, known) && Was(records, head)
      && Placed(digests, candidate, NextSequence(head))
      && candidate.core.previousEntryDigest == DigestOf(head)
      && candidate.core.event == request.event && candidate.eventDigest == digests.event(request.event)
    case Answered(_, known, head, result) =>
      WasKnown(records, known) && GoodResult(digests, records, request, known, head, result)
    case Done(outcome) => GoodOutcome(digests, records, request, outcome)
  }

  ghost predicate Inv(system: System, s: State) {
    && WellFormed(system.digests, s.records)
    && |s.recorders| == system.recorders
    && (forall r :: 0 <= r < |s.recorders| ==> WasKnown(s.records, s.recorders[r]))
    && (forall c :: 0 <= c < |s.calls| ==>
          s.calls[c].recorder < |s.recorders|
          && GoodPhase(system.digests, s.records, s.calls[c].request, s.calls[c].phase))
  }

  /** Nothing a call relies on is undone when the journal grows. */
  lemma {:induction false} GoodPhaseGrows(
    digests: Digests, records: seq<Record>, more: seq<Record>, request: Request, phase: Phase)
    requires GoodPhase(digests, records, request, phase) && records <= more
    ensures GoodPhase(digests, more, request, phase)
  {
    assert forall r :: r in records ==> r in more;
  }

  /** On a well-formed ledger, an older view's head is still in the newer journal. */
  lemma {:induction false} ViewHeadWas(digests: Digests, records: seq<Record>, view: seq<Record>)
    requires WellFormed(digests, records) && view <= records
    ensures Was(records, HeadOf(view))
  {
    if view != [] {
      var last := |view| - 1;
      assert view[last] == records[last];
      assert Placed(digests, records[last].entry, last);
    }
  }

  lemma {:induction false} ResolveGood(digests: Digests, records: seq<Record>, request: Request, existing: Entry)
    requires Record(request.key, existing) in records
    ensures GoodOutcome(digests, records, request, Resolve(digests, request, existing))
  {
    ResolvesExactly(digests, request, existing);
  }

  lemma {:induction false} BuildGood(
    system: System, records: seq<Record>, call: Call, attempt: nat, known: Known, head: Option<Head>, now: int)
    requires WasKnown(records, known) && Was(records, head)
    ensures GoodPhase(system.digests, records, call.request, Build(system, call, attempt, known, head, now))
  {
  }

  lemma {:induction false} AppendGood(system: System, records: seq<Record>, request: Request, phase: Phase)
    requires WellFormed(system.digests, records) && phase.Appending?
    requires GoodPhase(system.digests, records, request, phase)
    ensures var (after, result) := AppendTo(records, phase.head, phase.candidate, request.key);
      && records <= after && WellFormed(system.digests, after)
      && GoodResult(system.digests, after, request, phase.known, phase.head, result)
  {
    var (after, result) := AppendTo(records, phase.head, phase.candidate, request.key);
    ViewHeadWas(system.digests, records, records);
    if result.Appended? {
      if records != [] {
        assert Placed(system.digests, records[|records| - 1].entry, |records| - 1);
      }
      AppendKeepsChain(system.digests, records, phase.candidate, request.key);
      assert after[|records|] == Record(request.key, phase.candidate);
    } else if result.HeadConflict? && records != [] {
      assert Placed(system.digests, records[|records| - 1].entry, |records| - 1);
    }
  }

  lemma {:induction false} CallStepGood(system: System, s: State, call: Call, step: Step)
    requires WellFormed(system.digests, s.records) && Honest(s, step)
    requires call.recorder < |s.recorders| && WasKnown(s.records, s.recorders[call.recorder])
    requires GoodPhase(system.digests, s.records, call.request, call.phase)
    requires CallStep(system, s, call, step).Some?
    ensures var (records, phase) := CallStep(system, s, call, step).value;
      && s.records <= records && WellFormed(system.digests, records)
      && GoodPhase(system.digests, records, call.request, phase)
  {
    if step.LookUp? {
      LookupGood(system.digests, s.records, call.request, step.view);
    } else if step.ReadHead? {
      ReadHeadGood(system, s, call, step);
    } else if step.LookUpAgain? {
      LookupGood(system.digests, s.records, call.request, step.view);
      BuildGood(system, s.records, call, call.phase.attempt, call.phase.known, call.phase.head, step.now);
    } else if !step.BeginAttempt? {
      AppendGood(system, s.records, call.request, call.phase);
    }
  }

  lemma {:induction false} LookupGood(digests: Digests, records: seq<Record>, request: Request, view: seq<Record>)
    requires view <= records
    ensures Lookup(view, request.key).Some? ==>
      GoodOutcome(digests, records, request, Resolve(digests, request, Lookup(view, request.key).value))
  {
    if Lookup(view, request.key).Some? {
      assert Record(request.key, Lookup(view, request.key).value) in records;
      ResolveGood(digests, records, request, Lookup(view, request.key).value);
    }
  }

  lemma {:induction false} ReadHeadGood(system: System, s: State, call: Call, step: Step)
    requires WellFormed(system.digests, s.records)
    requires Honest(s, step) && step.ReadHead? && call.recorder < |s.recorders|
    requires call.phase.AwaitingHead? && WasKnown(s.records, call.phase.known)
    ensures GoodPhase(system.digests, s.records, call.request, CallStep(system, s, call, step).value.1)
  {
    ViewHeadWas(system.digests, s.records, step.view);
    var head := HigherHead(call.phase.known.committed, HeadOf(step.view));
    BuildGood(system, s.records, call, call.phase.attempt, call.phase.known, head, step.now);
  }

  /** A correct answer never looks like a regression to the call that gets it. */
  lemma {:induction false} ConflictGood(
    digests: Digests, records: seq<Record>, request: Request, known: Known, head: Option<Head>, actual: Option<Head>)
    requires WasKnown(records, known) && GoodResult(digests, records, request, known, head, HeadConflict(actual))
    ensures !Regressed(actual, known) && !SameHead(head, actual)
  {
  }

  lemma {:induction false} AppendedWas(digests: Digests, records: seq<Record>, request: Request, entry: Entry)
    requires WellFormed(digests, records) && Record(request.key, entry) in records
    ensures Was(records, HeadAfter(entry))
  {
    var k :| 0 <= k < |records| && records[k] == Record(request.key, entry);
    assert Placed(digests, records[k].entry, k);
  }

  lemma {:induction false} SettleGood(system: System, s: State, c: nat)
    requires Inv(system, s) && c < |s.calls| && s.calls[c].phase.Answered?
    ensures GoodPhase(system.digests, s.records, s.calls[c].request, Handled(system, s.calls[c]))
    ensures WasKnown(s.records, Learned(s.recorders[s.calls[c].recorder], s.calls[c].phase))
  {
    var call := s.calls[c];
    assert GoodPhase(system.digests, s.records, call.request, call.phase);
    assert WasKnown(s.records, s.recorders[call.recorder]);
    match call.phase.result {
      case Appended(entry) => AppendedWas(system.digests, s.records, call.request, entry);
      case Duplicate(entry) => ResolveGood(system.digests, s.records, call.request, entry);
      case IdempotencyConflict(existing) => ResolveGood(system.digests, s.records, call.request, existing);
      case HeadConflict(actual) =>
        ConflictGood(system.digests, s.records, call.request, call.phase.known, call.phase.head, actual);
    }
  }

  lemma {:induction false} SettleKeepsInv(system: System, s: State, c: nat)
    requires Inv(system, s) && Next(system, s, Settle(c)).Some?
    ensures Inv(system, Next(system, s, Settle(c)).value)
  {
    SettleGood(system, s, c);
  }

  /** One call moves on while the journal may grow under every other. */
  lemma {:induction false} CallKeepsInv(system: System, s: State, c: nat, records: seq<Record>, phase: Phase)
    requires Inv(system, s) && c < |s.calls|
    requires s.records <= records && WellFormed(system.digests, records)
    requires GoodPhase(system.digests, records, s.calls[c].request, phase)
    ensures Inv(system, s.(records := records, calls := s.calls[c := s.calls[c].(phase := phase)]))
  {
    forall k | 0 <= k < |s.calls|
      ensures GoodPhase(system.digests, records, s.calls[k].request, if k == c then phase else s.calls[k].phase)
    {
      if k != c {
        GoodPhaseGrows(system.digests, s.records, records, s.calls[k].request, s.calls[k].phase);
      }
    }
  }

  lemma {:induction false} StepKeepsInv(system: System, s: State, step: Step)
    requires Inv(system, s) && Honest(s, step) && Next(system, s, step).Some?
    ensures Inv(system, Next(system, s, step).value)
    ensures s.records <= Next(system, s, step).value.records
  {
    if step.Settle? {
      SettleKeepsInv(system, s, step.c);
    } else if !step.Submit? {
      var call := s.calls[step.c];
      CallStepGood(system, s, call, step);
      var (records, phase) := CallStep(system, s, call, step).value;
      CallKeepsInv(system, s, step.c, records, phase);
    }
  }

  lemma {:induction false} RunKeepsInv(system: System, steps: seq<Step>)
    requires HonestRun(system, steps)
    ensures Inv(system, Run(system, steps).value)
  {
    if steps != [] {
      var n := |steps| - 1;
      RunKeepsInv(system, steps[..n]);
      StepKeepsInv(system, Run(system, steps[..n]).value, steps[n]);
    }
  }

  // ---- What every run keeps ----------------------------------------------------------

  /** Whatever the interleaving and however stale the reads, the ledger is one gapless hash
      chain with genesis exactly at sequence 0 and at most one entry per event identity. */
  lemma {:induction false} LedgerIsOneChain(system: System, steps: seq<Step>, i: nat, j: nat)
    requires HonestRun(system, steps)
    requires var records := Run(system, steps).value.records; i < |records| && j < |records|
    ensures var records := Run(system, steps).value.records;
      var entry := records[i].entry;
      && entry.core.sequence == i && entry.entryDigest == system.digests.entry(entry.core)
      && entry.core.previousEntryDigest == (if i == 0 then None else Some(records[i - 1].entry.entryDigest))
      && (entry.core.event.Genesis? <==> i == 0)
      && (records[i].key == records[j].key ==> i == j)
  {
    RunKeepsInv(system, steps);
    var records := Run(system, steps).value.records;
    assert Placed(system.digests, records[i].entry, i);
  }

  /** Two calls with the same identity that both return, return the same entry, and it is the
      one the ledger holds under that identity, with the content that was submitted. */
  lemma {:induction false} ResubmissionReturnsTheEntry(system: System, steps: seq<Step>, a: nat, b: nat)
    requires HonestRun(system, steps)
    requires var calls := Run(system, steps).value.calls;
      && a < |calls| && b < |calls| && calls[a].request.key == calls[b].request.key
      && calls[a].phase.Done? && calls[a].phase.outcome.Returned?
      && calls[b].phase.Done? && calls[b].phase.outcome.Returned?
    ensures var s := Run(system, steps).value;
      var entry := s.calls[a].phase.outcome.entry;
      && s.calls[b].phase.outcome.entry == entry
      && Lookup(s.records, s.calls[a].request.key) == Some(entry)
      && (!s.calls[a].request.event.Genesis? ==> entry.eventDigest == system.digests.event(s.calls[a].request.event))
  {
    RunKeepsInv(system, steps);
    var s := Run(system, steps).value;
    assert GoodPhase(system.digests, s.records, s.calls[a].request, s.calls[a].phase);
    assert GoodPhase(system.digests, s.records, s.calls[b].request, s.calls[b].phase);
    LookupUnique(s.records, s.calls[a].request.key, s.calls[a].phase.outcome.entry);
    LookupUnique(s.records, s.calls[b].request.key, s.calls[b].phase.outcome.entry);
  }

  /** A correct journal is never accused: no call fails with the regression error or with the
      conflict-without-advance error, an identity conflict or a mismatched genesis is always a real
      one, and genesis is refused only when the ledger has begun. */
  lemma {:induction false} NoFalseAlarm(system: System, steps: seq<Step>, c: nat)
    requires HonestRun(system, steps)
    requires var calls := Run(system, steps).value.calls;
      c < |calls| && calls[c].phase.Done? && calls[c].phase.outcome.Failed?
    ensures var s := Run(system, steps).value;
      var failure := s.calls[c].phase.outcome.failure;
      && failure != Regression && failure != NoAdvance
      && (failure == EventIdConflict ==>
            exists entry :: Record(s.calls[c].request.key, entry) in s.records
                         && entry.eventDigest != system.digests.event(s.calls[c].request.event))
      && (failure == GenesisMismatch ==>
            && s.calls[c].request.event.Genesis?
            && exists entry :: Record(s.calls[c].request.key, entry) in s.records
                            && !IsTheOneAskedFor(system.digests, s.calls[c].request, entry))
      && (failure == GenesisNotFirst ==> s.calls[c].request.event.Genesis? && s.records != [])
      && (failure == ReplacesGenesis ==> s.calls[c].request.event.Produced?)
  {
    RunKeepsInv(system, steps);
    var s := Run(system, steps).value;
    assert GoodPhase(system.digests, s.records, s.calls[c].request, s.calls[c].phase);
  }

  // ---- How calls end -----------------------------------------------------------------

  /** How often call c has sent an append that answered. */
  function AppendsOf(steps: seq<Step>, c: nat): nat {
    if steps == [] then 0
    else AppendsOf(steps[..|steps| - 1], c) + if steps[|steps| - 1] == Append(c) then 1 else 0
  }

  ghost predicate ThrewIn(steps: seq<Step>, c: nat) {
    exists k :: 0 <= k < |steps| && (steps[k] == AppendThrows(c, true) || steps[k] == AppendThrows(c, false))
  }

  /** A call's attempts are its appends; it gives up after one more than the maximum of conflicts, and
      fails with the append's error only when an append of its own threw. */
  ghost predicate Accounted(system: System, phase: Phase, appends: nat, threw: bool) {
    match phase
    case Started => appends == 0
    case Looping(attempt) => appends == attempt <= system.maxAppendConflicts
    case AwaitingHead(attempt, _) => appends == attempt <= system.maxAppendConflicts
    case CheckingRace(attempt, _, _) => appends == attempt <= system.maxAppendConflicts
    case Appending(attempt, _, _, _) => appends == attempt <= system.maxAppendConflicts
    case Answered(attempt, _, _, _) => appends == attempt + 1 <= system.maxAppendConflicts + 1
    case Done(outcome) =>
      && (outcome == Failed(RetriesExhausted) ==> appends == system.maxAppendConflicts + 1)
      && (outcome == Failed(AppendThrew) ==> threw)
  }

  lemma {:induction false} CallStepAccounted(
    system: System, s: State, call: Call, step: Step, appends: nat, threw: bool)
    requires call.recorder < |s.recorders| && CallStep(system, s, call, step).Some?
    requires Accounted(system, call.phase, appends, threw)
    ensures Accounted(system, CallStep(system, s, call, step).value.1,
                      appends + (if step.Append? then 1 else 0), threw || step.AppendThrows?)
  {
    match step {
      case LookUp(_, view) =>
        if Lookup(view, call.request.key).Some? {
          ResolvesExactly(system.digests, call.request, Lookup(view, call.request.key).value);
        }
      case LookUpAgain(_, view, _) =>
        if Lookup(view, call.request.key).Some? {
          ResolvesExactly(system.digests, call.request, Lookup(view, call.request.key).value);
        }
      case _ =>
    }
  }

  lemma {:induction false} HandledAccounted(system: System, call: Call, appends: nat, threw: bool)
    requires call.phase.Answered? && Accounted(system, call.phase, appends, threw)
    ensures Accounted(system, Handled(system, call), appends, threw)
  {
    match call.phase.result {
      case Duplicate(entry) => ResolvesExactly(system.digests, call.request, entry);
      case IdempotencyConflict(existing) => ResolvesExactly(system.digests, call.request, existing);
      case _ =>
    }
  }

  lemma {:induction false} RunKeepsAccounts(system: System, steps: seq<Step>, c: nat)
    requires Run(system, steps).Some?
    ensures c < |Run(system, steps).value.calls| ==>
      Accounted(system, Run(system, steps).value.calls[c].phase, AppendsOf(steps, c), ThrewIn(steps, c))
    ensures c >= |Run(system, steps).value.calls| ==> AppendsOf(steps, c) == 0
  {
    if steps != [] {
      var n := |steps| - 1;
      var before := Run(system, steps[..n]).value;
      RunKeepsAccounts(system, steps[..n], c);
      ThrewSnoc(steps, c);
      if c < |before.calls| {
        var call := before.calls[c];
        if steps[n] == Settle(c) {
          HandledAccounted(system, call, AppendsOf(steps[..n], c), ThrewIn(steps[..n], c));
        } else if !steps[n].Submit? && !steps[n].JournalReplaced? && !steps[n].Settle? && steps[n].c == c {
          CallStepAccounted(system, before, call, steps[n], AppendsOf(steps[..n], c), ThrewIn(steps[..n], c));
        }
      }
    }
  }

  lemma {:induction false} ThrewSnoc(steps: seq<Step>, c: nat)
    requires steps != []
    ensures var last := steps[|steps| - 1];
      ThrewIn(steps, c) <==> ThrewIn(steps[..|steps| - 1], c) || (last.AppendThrows? && last.c == c)
  {
    var n := |steps| - 1;
    if last :| last == steps[n] && last.AppendThrows? && last.c == c {
      assert steps[n] == AppendThrows(c, true) || steps[n] == AppendThrows(c, false);
    }
    if ThrewIn(steps[..n], c) {
      var k :| 0 <= k < n && (steps[..n][k] == AppendThrows(c, true) || steps[..n][k] == AppendThrows(c, false));
      assert steps[k] == steps[..n][k];
    }
    if ThrewIn(steps, c) {
      var k :| 0 <= k < |steps| && (steps[k] == AppendThrows(c, true) || steps[k] == AppendThrows(c, false));
      assert k < n ==> steps[..n][k] == steps[k];
    }
  }

  /** In every run, with any journal: a call fails with the append's error only when an append of its
      own threw, and gives up only after exactly one more than the maximum of answered appends. */
  lemma {:induction false} FailuresAreEarned(system: System, steps: seq<Step>, c: nat)
    requires Run(system, steps).Some? && c < |Run(system, steps).value.calls|
    ensures var phase := Run(system, steps).value.calls[c].phase;
      && (phase == Done(Failed(AppendThrew)) ==> ThrewIn(steps, c))
      && (phase == Done(Failed(RetriesExhausted)) ==> AppendsOf(steps, c) == system.maxAppendConflicts + 1)
  {
    RunKeepsAccounts(system, steps, c);
  }

  lemma {:induction false} RunSnoc(system: System, steps: seq<Step>, step: Step)
    requires HonestRun(system, steps) && Honest(Run(system, steps).value, step)
    ensures Run(system, steps + [step]) == Next(system, Run(system, steps).value, step)
    ensures Run(system, steps + [step]).Some? ==> HonestRun(system, steps + [step])
  {
    assert (steps + [step])[..|steps|] == steps;
  }

  /** A call whose first lookup finds an entry under its identity ends with it if it is the one asked
      for, and with an error otherwise. */
  lemma {:induction false} FoundIsReturned(system: System, steps: seq<Step>, c: nat, view: seq<Record>, entry: Entry)
    requires HonestRun(system, steps)
    requires var s := Run(system, steps).value;
      && c < |s.calls| && s.calls[c].phase.Started? && view <= s.records && Record(s.calls[c].request.key, entry) in view
    ensures var s := Run(system, steps).value;
      var after := Run(system, steps + [LookUp(c, view)]);
      && after.Some? && after.value.calls[c].phase.Done? && after.value.records == s.records
      && (after.value.calls[c].phase.outcome == Returned(entry) <==>
            IsTheOneAskedFor(system.digests, s.calls[c].request, entry))
  {
    var s := Run(system, steps).value;
    RunKeepsInv(system, steps);
    RunSnoc(system, steps, LookUp(c, view));
    ViewUnique(system.digests, s.records, view);
    LookupUnique(view, s.calls[c].request.key, entry);
    ResolvesExactly(system.digests, s.calls[c].request, entry);
  }

  lemma {:induction false} ViewUnique(digests: Digests, records: seq<Record>, view: seq<Record>)
    requires WellFormed(digests, records) && view <= records
    ensures UniqueKeys(view)
  {
  }

  lemma {:induction false} AppendMeetsDuplicate(system: System, steps: seq<Step>, c: nat, entry: Entry)
    requires HonestRun(system, steps)
    requires var s := Run(system, steps).value;
      && c < |s.calls| && s.calls[c].phase.Appending? && Record(s.calls[c].request.key, entry) in s.records
    ensures HonestRun(system, steps + [Append(c)])
    ensures var (s, after) := (Run(system, steps).value, Run(system, steps + [Append(c)]).value);
      && after.records == s.records && after.recorders == s.recorders
      && c < |after.calls| && after.calls[c].request == s.calls[c].request
      && after.calls[c].recorder == s.calls[c].recorder < |s.recorders|
      && after.calls[c].phase.Answered?
      && (after.calls[c].phase.result == Duplicate(entry) || after.calls[c].phase.result == IdempotencyConflict(entry))
  {
    var s := Run(system, steps).value;
    RunKeepsInv(system, steps);
    RunSnoc(system, steps, Append(c));
    LookupUnique(s.records, s.calls[c].request.key, entry);
  }

  /** And so does a call that only learns of the entry from its append, however stale its reads. */
  lemma {:induction false} DuplicateIsReturned(system: System, steps: seq<Step>, c: nat, entry: Entry)
    requires HonestRun(system, steps)
    requires var s := Run(system, steps).value;
      && c < |s.calls| && s.calls[c].phase.Appending? && Record(s.calls[c].request.key, entry) in s.records
    ensures var s := Run(system, steps).value;
      var after := Run(system, steps + [Append(c)] + [Settle(c)]);
      && after.Some? && after.value.calls[c].phase.Done? && after.value.records == s.records
      && (after.value.calls[c].phase.outcome == Returned(entry) <==>
            IsTheOneAskedFor(system.digests, s.calls[c].request, entry))
  {
    AppendMeetsDuplicate(system, steps, c, entry);
    RunSnoc(system, steps + [Append(c)], Settle(c));
    ResolvesExactly(system.digests, Run(system, steps).value.calls[c].request, entry);
  }

  lemma {:induction false} StartsLooping(system: System, steps: seq<Step>, c: nat)
    requires HonestRun(system, steps)
    requires var s := Run(system, steps).value;
      && c < |s.calls| && s.calls[c].phase.Started? && forall r :: r in s.records ==> r.key != s.calls[c].request.key
    ensures var s := Run(system, steps).value;
      var more := steps + [LookUp(c, s.records)] + [BeginAttempt(c)];
      && HonestRun(system, more) && s.calls[c].recorder < |s.recorders|
      && Run(system, more) == Some(s.(calls := s.calls[c := s.calls[c].(
                                        phase := AwaitingHead(0, s.recorders[s.calls[c].recorder]))]))
  {
    var s := Run(system, steps).value;
    RunKeepsInv(system, steps);
    RunSnoc(system, steps, LookUp(c, s.records));
    var looking := s.(calls := s.calls[c := s.calls[c].(phase := Looping(0))]);
    assert Run(system, steps + [LookUp(c, s.records)]) == Some(looking);
    RunSnoc(system, steps + [LookUp(c, s.records)], BeginAttempt(c));
    assert looking.calls[c := looking.calls[c].(phase := AwaitingHead(0, s.recorders[s.calls[c].recorder]))]
        == s.calls[c := s.calls[c].(phase := AwaitingHead(0, s.recorders[s.calls[c].recorder]))];
  }

  /** An up-to-date read is at least what its recorder has committed. */
  lemma {:induction false} FreshHead(digests: Digests, records: seq<Record>, known: Known)
    requires WellFormed(digests, records) && WasKnown(records, known)
    ensures HigherHead(known.committed, HeadOf(records)) == HeadOf(records)
  {
    if records != [] {
      assert Placed(digests, records[|records| - 1].entry, |records| - 1);
    }
  }

  lemma {:induction false} BuildsOnFreshHead(system: System, steps: seq<Step>, c: nat, known: Known, now: int)
    requires HonestRun(system, steps)
    requires var s := Run(system, steps).value;
      && c < |s.calls| && s.calls[c].phase == AwaitingHead(0, known)
      && (s.calls[c].request.event.Genesis? <==> s.records == [])
    ensures var s := Run(system, steps).value;
      var built := BuildCandidate(system.digests, s.calls[c].request.event, HeadOf(s.records), now);
      && built.Candidate? && HonestRun(system, steps + [ReadHead(c, s.records, now)])
      && Follows(system.digests, built.entry, HeadOf(s.records), s.calls[c].request.event, now)
      && Run(system, steps + [ReadHead(c, s.records, now)]) == Some(s.(calls := s.calls[c := s.calls[c].(
                                        phase := Appending(0, known, HeadOf(s.records), built.entry))]))
  {
    var s := Run(system, steps).value;
    RunKeepsInv(system, steps);
    FreshHead(system.digests, s.records, known);
    RunSnoc(system, steps, ReadHead(c, s.records, now));
  }

  lemma {:induction false} AppendsOnFreshHead(
    system: System, steps: seq<Step>, c: nat, known: Known, head: Option<Head>, entry: Entry)
    requires HonestRun(system, steps)
    requires var s := Run(system, steps).value;
      && c < |s.calls| && s.calls[c].recorder < |s.recorders| && head == HeadOf(s.records)
      && s.calls[c].phase == Appending(0, known, head, entry)
      && forall r :: r in s.records ==> r.key != s.calls[c].request.key
    ensures var s := Run(system, steps).value;
      var after := Run(system, steps + [Append(c)] + [Settle(c)]);
      && after.Some? && c < |after.value.calls| && after.value.calls[c].phase == Done(Returned(entry))
      && after.value.records == s.records + [Record(s.calls[c].request.key, entry)]
  {
    RunSnoc(system, steps, Append(c));
    RunSnoc(system, steps + [Append(c)], Settle(c));
  }

  /** A new event is recorded: a call that nobody disturbs, reads up to date and whose append answers
      returns the entry that follows the ledger's last, and that entry is appended. */
  lemma {:induction false} UndisturbedCallAppends(system: System, steps: seq<Step>, c: nat, now: int)
    requires HonestRun(system, steps)
    requires var s := Run(system, steps).value;
      && c < |s.calls| && s.calls[c].phase.Started?
      && (forall r :: r in s.records ==> r.key != s.calls[c].request.key)
      && (s.calls[c].request.event.Genesis? <==> s.records == [])
    ensures var s := Run(system, steps).value;
      var after := Run(system, steps + [LookUp(c, s.records)] + [BeginAttempt(c)] + [ReadHead(c, s.records, now)]
                               + [Append(c)] + [Settle(c)]);
      && after.Some? && c < |after.value.calls| && after.value.calls[c].phase.Done?
      && after.value.calls[c].phase.outcome.Returned?
      && var entry := after.value.calls[c].phase.outcome.entry;
      && after.value.records == s.records + [Record(s.calls[c].request.key, entry)]
      && Follows(system.digests, entry, HeadOf(s.records), s.calls[c].request.event, now)
  {
    var s := Run(system, steps).value;
    StartsLooping(system, steps, c);
    var started := steps + [LookUp(c, s.records)] + [BeginAttempt(c)];
    var known := s.recorders[s.calls[c].recorder];
    BuildsOnFreshHead(system, started, c, known, now);
    var entry := BuildCandidate(system.digests, s.calls[c].request.event, HeadOf(s.records), now).entry;
    AppendsOnFreshHead(system, started + [ReadHead(c, s.records, now)], c, known, HeadOf(s.records), entry);
  }

  lemma {:induction false} ThrownAppend(system: System, steps: seq<Step>, c: nat, applied: bool)
    requires HonestRun(system, steps)
    requires var s := Run(system, steps).value;
      && c < |s.calls| && s.calls[c].phase.Appending? && s.calls[c].phase.head == HeadOf(s.records)
      && forall r :: r in s.records ==> r.key != s.calls[c].request.key
    ensures var s := Run(system, steps).value;
      var call := s.calls[c];
      && HonestRun(system, steps + [AppendThrows(c, applied)])
      && Run(system, steps + [AppendThrows(c, applied)]) == Some(s.(
           records := if applied then s.records + [Record(call.request.key, call.phase.candidate)] else s.records,
           calls := s.calls[c := call.(phase := Done(Failed(AppendThrew)))]))
  {
    RunKeepsInv(system, steps);
    RunSnoc(system, steps, AppendThrows(c, applied));
  }

  lemma {:induction false} CandidateIsAskedFor(system: System, steps: seq<Step>, c: nat)
    requires HonestRun(system, steps) && c < |Run(system, steps).value.calls|
    requires Run(system, steps).value.calls[c].phase.Appending?
    ensures var call := Run(system, steps).value.calls[c];
      call.recorder < |Run(system, steps).value.recorders|
      && IsTheOneAskedFor(system.digests, call.request, call.phase.candidate)
  {
    RunKeepsInv(system, steps);
    var call := Run(system, steps).value.calls[c];
    assert GoodPhase(system.digests, Run(system, steps).value.records, call.request, call.phase);
  }

  /** A lost reply is made good: an append that takes effect and throws fails its call, and submitting
      the same event again returns the entry that it appended. */
  lemma {:induction false} LostReplyIsRecovered(system: System, steps: seq<Step>, c: nat)
    requires HonestRun(system, steps)
    requires var s := Run(system, steps).value;
      && c < |s.calls| && s.calls[c].phase.Appending? && s.calls[c].phase.head == HeadOf(s.records)
      && forall r :: r in s.records ==> r.key != s.calls[c].request.key
    ensures var s := Run(system, steps).value;
      var (call, n) := (s.calls[c], |s.calls|);
      var records := s.records + [Record(call.request.key, call.phase.candidate)];
      var thrown := Run(system, steps + [AppendThrows(c, true)]);
      var again := Run(system, steps + [AppendThrows(c, true)] + [Submit(call.recorder, call.request)]
                               + [LookUp(n, records)]);
      && thrown.Some? && thrown.value.records == records && thrown.value.calls[c].phase == Done(Failed(AppendThrew))
      && again.Some? && again.value.records == records && n < |again.value.calls|
      && again.value.calls[n].phase == Done(Returned(call.phase.candidate))
  {
    var s := Run(system, steps).value;
    var (call, n) := (s.calls[c], |s.calls|);
    var records := s.records + [Record(call.request.key, call.phase.candidate)];
    CandidateIsAskedFor(system, steps, c);
    ThrownAppend(system, steps, c, true);
    var thrown := steps + [AppendThrows(c, true)];
    RunSnoc(system, thrown, Submit(call.recorder, call.request));
    assert records[|s.records|] in records;
    FoundIsReturned(system, thrown + [Submit(call.recorder, call.request)], n, records, call.phase.candidate);
  }

  /** A recorder remembers the heads that it was told, unless they were a regression, and the heads that
      it appended: an answer below the one or forking the other is caught by every later attempt. */
  lemma {:induction false} RegressionIsCaught(
    system: System, known: Known, told: Phase, later: Call, h: Head, bad: Option<Head>)
    requires told.Answered? && later.phase.Answered? && later.phase.known == Learned(known, told)
    requires later.phase.result == HeadConflict(bad)
    requires
      || (told.result == HeadConflict(Some(h)) && !Regressed(Some(h), told.known)
          && (known.reported.Some? ==> known.reported.value.sequence < h.sequence)
          && bad.Some? && bad.value.sequence == h.sequence && bad.value.entryDigest != h.entryDigest)
      || (told.result.Appended? && h == Head(told.result.entry.core.sequence, told.result.entry.entryDigest)
          && (known.committed.Some? ==> known.committed.value.sequence < h.sequence)
          && (bad.None? || bad.value.sequence < h.sequence
              || (bad.value.sequence == h.sequence && bad.value.entryDigest != h.entryDigest)))
    ensures Handled(system, later) == Done(Failed(Regression))
  {
  }

  // ---- Receipts, whatever the journal does -------------------------------------------

  predicate AtLeast(head: Option<Head>, other: Option<Head>) {
    other.Some? ==> head.Some? && head.value.sequence >= other.value.sequence
  }

  /** What holds of a call even when reads and the journal are arbitrary: its attempt's head is at
      least the head that its recorder had committed when the attempt began, and what it appends
      follows that head. */
  ghost predicate Aligned(phase: Phase) {
    match phase
    case CheckingRace(_, known, head) => AtLeast(head, known.committed)
    case Appending(_, known, head, candidate) =>
      AtLeast(head, known.committed) && candidate.core.sequence == NextSequence(head)
    case Answered(_, known, head, result) =>
      AtLeast(head, known.committed) && (result.Appended? ==> result.entry.core.sequence == NextSequence(head))
    case _ => true
  }

  ghost predicate AllAligned(s: State) {
    forall c :: 0 <= c < |s.calls| ==> Aligned(s.calls[c].phase)
  }

  lemma {:induction false} CallStepAligned(system: System, s: State, call: Call, step: Step)
    requires call.recorder < |s.recorders| && Aligned(call.phase) && CallStep(system, s, call, step).Some?
    ensures Aligned(CallStep(system, s, call, step).value.1)
  {
  }

  lemma {:induction false} StepKeepsAligned(system: System, s: State, step: Step)
    requires AllAligned(s) && Next(system, s, step).Some?
    ensures AllAligned(Next(system, s, step).value)
  {
    if !step.Submit? && !step.JournalReplaced? && !step.Settle? {
      CallStepAligned(system, s, s.calls[step.c], step);
    }
  }

  lemma {:induction false} RunKeepsAligned(system: System, steps: seq<Step>)
    requires Run(system, steps).Some?
    ensures AllAligned(Run(system, steps).value)
  {
    if steps != [] {
      var n := |steps| - 1;
      RunKeepsAligned(system, steps[..n]);
      StepKeepsAligned(system, Run(system, steps[..n]).value, steps[n]);
    }
  }

  /** Whether this step gives recorder r a receipt, the return of an entry it appended. */
  predicate Receipts(s: State, step: Step, r: nat) {
    && step.Settle? && step.c < |s.calls|
    && s.calls[step.c].recorder == r < |s.recorders|
    && s.calls[step.c].phase.Answered? && s.calls[step.c].phase.result.Appended?
  }

  /** The head an attempt appended to is still at least what its recorder has committed by now. */
  predicate StillAhead(s: State, step: Step, r: nat)
    requires Receipts(s, step, r)
  {
    HigherHead(s.calls[step.c].phase.head, s.recorders[r].committed) == s.calls[step.c].phase.head
  }

  /** Over every run, with any journal, a receipt lies beyond everything its recorder had committed
      exactly when the head it was appended to is still at least the committed one. */
  lemma {:induction false} ReceiptIsNewExactly(system: System, steps: seq<Step>, step: Step, r: nat)
    requires Run(system, steps).Some? && Receipts(Run(system, steps).value, step, r)
    ensures var s := Run(system, steps).value;
      Beyond(s.recorders[r].committed, s.calls[step.c].phase.result.entry.core.sequence) <==> StillAhead(s, step, r)
  {
    RunKeepsAligned(system, steps);
    assert Aligned(Run(system, steps).value.calls[step.c].phase);
  }

  /** An attempt during which its recorder committed nothing else is always in that case. */
  lemma {:induction false} AloneIsStillAhead(system: System, steps: seq<Step>, step: Step, r: nat)
    requires Run(system, steps).Some? && Receipts(Run(system, steps).value, step, r)
    requires var s := Run(system, steps).value; s.recorders[r].committed == s.calls[step.c].phase.known.committed
    ensures StillAhead(Run(system, steps).value, step, r)
  {
    RunKeepsAligned(system, steps);
    assert Aligned(Run(system, steps).value.calls[step.c].phase);
  }

  /** The sequences that recorder r was given receipts for, in order. */
  ghost function Receipted(system: System, steps: seq<Step>, r: nat): seq<nat>
    requires Run(system, steps).Some?
  {
    if steps == [] then []
    else
      var n := |steps| - 1;
      var before := Run(system, steps[..n]).value;
      Receipted(system, steps[..n], r)
      + if Receipts(before, steps[n], r) then [before.calls[steps[n].c].phase.result.entry.core.sequence] else []
  }

  ghost predicate AlwaysAhead(system: System, steps: seq<Step>, r: nat)
    requires Run(system, steps).Some?
  {
    steps != [] ==>
      var n := |steps| - 1;
      var before := Run(system, steps[..n]).value;
      AlwaysAhead(system, steps[..n], r) && (Receipts(before, steps[n], r) ==> StillAhead(before, steps[n], r))
  }

  predicate Increasing(sequences: seq<nat>) {
    forall i, j :: 0 <= i < j < |sequences| ==> sequences[i] < sequences[j]
  }

  /** The committed head is the highest receipt so far. */
  ghost predicate Tops(committed: Option<Head>, receipts: seq<nat>) {
    && (committed.None? <==> receipts == [])
    && (committed.Some? ==> committed.value.sequence in receipts)
    && forall x :: x in receipts ==> committed.Some? && x <= committed.value.sequence
  }

  lemma {:induction false} ToppedSnoc(committed: Option<Head>, receipts: seq<nat>, entry: Entry)
    requires Tops(committed, receipts)
    ensures Tops(HigherHead(committed, HeadAfter(entry)), receipts + [entry.core.sequence])
    ensures Increasing(receipts + [entry.core.sequence]) <==>
      Increasing(receipts) && Beyond(committed, entry.core.sequence)
  {
    var all := receipts + [entry.core.sequence];
    assert all[|receipts|] == entry.core.sequence;
    assert forall i :: 0 <= i < |receipts| ==> all[i] == receipts[i] && receipts[i] in receipts;
    if committed.Some? {
      var k :| 0 <= k < |receipts| && receipts[k] == committed.value.sequence;
      assert all[k] == committed.value.sequence;
    }
    assert HigherHead(committed, HeadAfter(entry)).value.sequence in all;
  }

  lemma {:induction false} CommittedTops(system: System, steps: seq<Step>, r: nat)
    requires Run(system, steps).Some? && r < system.recorders
    ensures r < |Run(system, steps).value.recorders|
    ensures Tops(Run(system, steps).value.recorders[r].committed, Receipted(system, steps, r))
  {
    if steps != [] {
      var n := |steps| - 1;
      var before := Run(system, steps[..n]).value;
      CommittedTops(system, steps[..n], r);
      if Receipts(before, steps[n], r) {
        ToppedSnoc(before.recorders[r].committed, Receipted(system, steps[..n], r),
                   before.calls[steps[n].c].phase.result.entry);
      } else {
        OthersKeepCommitted(system, before, steps[n], r);
        assert Receipted(system, steps, r) == Receipted(system, steps[..n], r);
      }
    }
  }

  lemma {:induction false} OthersKeepCommitted(system: System, s: State, step: Step, r: nat)
    requires Next(system, s, step).Some? && r < |s.recorders| && !Receipts(s, step, r)
    ensures |Next(system, s, step).value.recorders| == |s.recorders|
    ensures Next(system, s, step).value.recorders[r].committed == s.recorders[r].committed
  {
  }

  /** Over every run, with any number of overlapping submissions and a journal that may be replaced
      at any moment, no recorder receipts a sequence twice, or one below an earlier receipt, if and
      only if every receipt comes from a head that is still at least the committed one. */
  lemma {:induction false} ReceiptsIncreaseExactly(system: System, steps: seq<Step>, r: nat)
    requires Run(system, steps).Some? && r < system.recorders
    ensures Increasing(Receipted(system, steps, r)) <==> AlwaysAhead(system, steps, r)
  {
    if steps != [] {
      var n := |steps| - 1;
      var before := Run(system, steps[..n]).value;
      ReceiptsIncreaseExactly(system, steps[..n], r);
      CommittedTops(system, steps[..n], r);
      if Receipts(before, steps[n], r) {
        ToppedSnoc(before.recorders[r].committed, Receipted(system, steps[..n], r),
                   before.calls[steps[n].c].phase.result.entry);
        ReceiptIsNewExactly(system, steps[..n], steps[n], r);
      } else {
        assert Receipted(system, steps, r) == Receipted(system, steps[..n], r);
      }
    }
  }

  // ---- The condition can fail --------------------------------------------------------

  /** A run has reached this state with these receipts of recorder 0. */
  ghost predicate Reached(system: System, steps: seq<Step>, s: State, receipts: seq<nat>) {
    Run(system, steps) == Some(s) && Receipted(system, steps, 0) == receipts
  }

  lemma {:induction false} Reach(system: System, steps: seq<Step>, s: State, receipts: seq<nat>, step: Step, t: State)
    requires Reached(system, steps, s, receipts) && Next(system, s, step) == Some(t)
    ensures Reached(system, steps + [step], t,
                    if Receipts(s, step, 0) then receipts + [s.calls[step.c].phase.result.entry.core.sequence] else receipts)
  {
    assert (steps + [step])[..|steps|] == steps;
  }

  /** Two calls on the one recorder. */
  function Two(records: seq<Record>, known: Known, a: Request, pa: Phase, b: Request, pb: Phase): State {
    State(records, [known], [Call(0, a, pa), Call(0, b, pb)])
  }

  lemma {:induction false} OneCallMoves(
    system: System, records: seq<Record>, known: Known, a: Request, pa: Phase, b: Request, pb: Phase, step: Step,
    after: seq<Record>, phase: Phase)
    requires !step.Submit? && !step.JournalReplaced? && !step.Settle? && step.c <= 1
    requires var s := Two(records, known, a, pa, b, pb);
      CallStep(system, s, s.calls[step.c], step) == Some((after, phase))
    ensures Next(system, Two(records, known, a, pa, b, pb), step) == Some(
      if step.c == 0 then Two(after, known, a, phase, b, pb) else Two(after, known, a, pa, b, phase))
  {
    var s := Two(records, known, a, pa, b, pb);
    assert s.calls[0 := Call(0, a, phase)] == [Call(0, a, phase), Call(0, b, pb)];
    assert s.calls[1 := Call(0, b, phase)] == [Call(0, a, pa), Call(0, b, phase)];
  }

  lemma {:induction false} OneCallSettles(
    system: System, records: seq<Record>, known: Known, a: Request, pa: Phase, b: Request, pb: Phase, c: nat)
    requires c <= 1 && (if c == 0 then pa else pb).Answered? && (if c == 0 then pa else pb).result.Appended?
    ensures var s := Two(records, known, a, pa, b, pb);
      var (phase, learned) := (Handled(system, s.calls[c]), Learned(known, s.calls[c].phase));
      Next(system, s, Settle(c)) == Some(
        if c == 0 then Two(records, learned, a, phase, b, pb) else Two(records, learned, a, pa, b, phase))
  {
    var s := Two(records, known, a, pa, b, pb);
    var phase := Handled(system, s.calls[c]);
    assert s.recorders[0 := Learned(known, s.calls[c].phase)] == [Learned(known, s.calls[c].phase)];
    assert s.calls[0 := Call(0, a, phase)] == [Call(0, a, phase), Call(0, b, pb)];
    assert s.calls[1 := Call(0, b, phase)] == [Call(0, a, pa), Call(0, b, phase)];
  }

  function Nothing(): Known {
    Known(None, None)
  }

  /** Two produced events under new identities, and the entry that the journal holds. */
  predicate Overlapping(system: System, first: Record, a: Request, b: Request) {
    && system.recorders == 1
    && !a.event.Genesis? && !b.event.Genesis? && a.event != b.event
    && a.key != first.key && b.key != first.key
  }

  function EntryFor(system: System, first: Record, request: Request): Entry
    requires !request.event.Genesis?
  {
    BuildCandidate(system.digests, request.event, HeadOf([first]), 0).entry
  }

  function ReadyFor(system: System, first: Record, request: Request): Phase
    requires !request.event.Genesis?
  {
    Appending(0, Nothing(), HeadOf([first]), EntryFor(system, first, request))
  }

  function AcceptedFor(system: System, first: Record, request: Request): Phase
    requires !request.event.Genesis?
  {
    Answered(0, Nothing(), HeadOf([first]), Appended(EntryFor(system, first, request)))
  }

  lemma {:induction false} Submits(system: System, s: State, request: Request, t: State)
    requires |s.recorders| == 1 && t == State(s.records, s.recorders, s.calls + [Call(0, request, Started)])
    ensures Next(system, s, Submit(0, request)) == Some(t)
  {
  }

  lemma {:induction false} StartHolds(system: System, first: Record)
    requires system.recorders == 1
    ensures Next(system, Start(system), JournalReplaced([first])) == Some(State([first], [Nothing()], []))
  {
    assert Start(system).recorders == [Nothing()];
  }

  /** Both calls are submitted over a journal that holds one entry. */
  lemma {:induction false} BothSubmitted(system: System, first: Record, a: Request, b: Request)
    returns (steps: seq<Step>)
    requires Overlapping(system, first, a, b)
    ensures Reached(system, steps, Two([first], Nothing(), a, Started, b, Started), [])
  {
    var held := State([first], [Nothing()], []);
    var one := State([first], [Nothing()], [] + [Call(0, a, Started)]);
    var both := State([first], [Nothing()], [] + [Call(0, a, Started)] + [Call(0, b, Started)]);
    StartHolds(system, first);
    Submits(system, held, a, one);
    Submits(system, one, b, both);
    steps := [];
    Reach(system, steps, Start(system), [], JournalReplaced([first]), held);
    steps := steps + [JournalReplaced([first])];
    Reach(system, steps, held, [], Submit(0, a), one);
    steps := steps + [Submit(0, a)];
    Reach(system, steps, one, [], Submit(0, b), both);
    steps := steps + [Submit(0, b)];
    assert both.calls == [Call(0, a, Started), Call(0, b, Started)];
  }

  lemma {:induction false} BothWaiting(system: System, first: Record, a: Request, b: Request)
    returns (steps: seq<Step>)
    requires Overlapping(system, first, a, b)
    ensures var w := AwaitingHead(0, Nothing()); Reached(system, steps, Two([first], Nothing(), a, w, b, w), [])
  {
    steps := BothSubmitted(system, first, a, b);
    var (r, k, w) := ([first], Nothing(), AwaitingHead(0, Nothing()));
    steps := Moves(system, steps, [], r, k, a, Started, b, Started, LookUp(0, []), r, Looping(0));
    steps := Moves(system, steps, [], r, k, a, Looping(0), b, Started, LookUp(1, []), r, Looping(0));
    steps := Moves(system, steps, [], r, k, a, Looping(0), b, Looping(0), BeginAttempt(0), r, w);
    steps := Moves(system, steps, [], r, k, a, w, b, Looping(0), BeginAttempt(1), r, w);
  }

  /** Both calls read the same head before either appends. */
  lemma {:induction false} BothReady(system: System, first: Record, a: Request, b: Request)
    returns (steps: seq<Step>)
    requires Overlapping(system, first, a, b)
    ensures Reached(system, steps, Two([first], Nothing(), a, ReadyFor(system, first, a), b, ReadyFor(system, first, b)), [])
  {
    steps := BothWaiting(system, first, a, b);
    var (r, k, w) := ([first], Nothing(), AwaitingHead(0, Nothing()));
    var (ra, rb) := (ReadyFor(system, first, a), ReadyFor(system, first, b));
    steps := Moves(system, steps, [], r, k, a, w, b, w, ReadHead(0, r, 0), r, ra);
    steps := Moves(system, steps, [], r, k, a, ra, b, w, ReadHead(1, r, 0), r, rb);
  }

  lemma {:induction false} Moves(
    system: System, steps: seq<Step>, receipts: seq<nat>, records: seq<Record>, known: Known,
    a: Request, pa: Phase, b: Request, pb: Phase, step: Step, after: seq<Record>, phase: Phase)
    returns (more: seq<Step>)
    requires Reached(system, steps, Two(records, known, a, pa, b, pb), receipts)
    requires !step.Submit? && !step.JournalReplaced? && !step.Settle? && step.c <= 1
    requires var s := Two(records, known, a, pa, b, pb);
      CallStep(system, s, s.calls[step.c], step) == Some((after, phase))
    ensures Reached(system, more,
      if step.c == 0 then Two(after, known, a, phase, b, pb) else Two(after, known, a, pa, b, phase), receipts)
  {
    OneCallMoves(system, records, known, a, pa, b, pb, step, after, phase);
    more := steps + [step];
    Reach(system, steps, Two(records, known, a, pa, b, pb), receipts, step,
          if step.c == 0 then Two(after, known, a, phase, b, pb) else Two(after, known, a, pa, b, phase));
  }

  lemma {:induction false} Receipting(
    system: System, steps: seq<Step>, receipts: seq<nat>, records: seq<Record>, known: Known,
    a: Request, pa: Phase, b: Request, pb: Phase, c: nat, entry: Entry)
    returns (more: seq<Step>)
    requires Reached(system, steps, Two(records, known, a, pa, b, pb), receipts)
    requires c <= 1
    requires var phase := if c == 0 then pa else pb; phase.Answered? && phase.result == Appended(entry)
    ensures var learned := Learned(known, if c == 0 then pa else pb);
      Reached(system, more,
        if c == 0 then Two(records, learned, a, Done(Returned(entry)), b, pb)
        else Two(records, learned, a, pa, b, Done(Returned(entry))), receipts + [entry.core.sequence])
  {
    OneCallSettles(system, records, known, a, pa, b, pb, c);
    var s := Two(records, known, a, pa, b, pb);
    more := steps + [Settle(c)];
    Reach(system, steps, s, receipts, Settle(c), Next(system, s, Settle(c)).value);
  }

  lemma {:induction false} RollsBack(
    system: System, steps: seq<Step>, receipts: seq<nat>, records: seq<Record>, known: Known,
    a: Request, pa: Phase, b: Request, pb: Phase, to: seq<Record>)
    returns (more: seq<Step>)
    requires Reached(system, steps, Two(records, known, a, pa, b, pb), receipts)
    ensures Reached(system, more, Two(to, known, a, pa, b, pb), receipts)
  {
    more := steps + [JournalReplaced(to)];
    Reach(system, steps, Two(records, known, a, pa, b, pb), receipts, JournalReplaced(to), Two(to, known, a, pa, b, pb));
  }

  /** The first call appends and is receipted, and then the journal rolls back. */
  lemma {:induction false} FirstReceipted(system: System, first: Record, a: Request, b: Request)
    returns (steps: seq<Step>)
    requires Overlapping(system, first, a, b)
    ensures var x := EntryFor(system, first, a);
      Reached(system, steps,
        Two([first], Learned(Nothing(), AcceptedFor(system, first, a)), a, Done(Returned(x)), b, ReadyFor(system, first, b)),
        [x.core.sequence])
  {
    steps := BothReady(system, first, a, b);
    var (r, k, x) := ([first], Nothing(), EntryFor(system, first, a));
    var (ra, rb, aa) := (ReadyFor(system, first, a), ReadyFor(system, first, b), AcceptedFor(system, first, a));
    steps := Moves(system, steps, [], r, k, a, ra, b, rb, Append(0), r + [Record(a.key, x)], aa);
    steps := Receipting(system, steps, [], r + [Record(a.key, x)], k, a, aa, b, rb, 0, x);
    assert [] + [x.core.sequence] == [x.core.sequence];
    steps := RollsBack(system, steps, [x.core.sequence], r + [Record(a.key, x)], Learned(k, aa), a, Done(Returned(x)), b, rb, r);
  }

  /** The condition can fail: two overlapping calls read the same head, the first appends and is
      receipted, the journal rolls back, and the second appends and is receipted too. One recorder
      then holds two different entries at one sequence. */
  lemma {:induction false} OverlapReceiptsTwice(system: System, first: Record, a: Request, b: Request)
    returns (steps: seq<Step>)
    requires Overlapping(system, first, a, b)
    ensures Run(system, steps).Some?
    ensures var (x, y) := (EntryFor(system, first, a), EntryFor(system, first, b));
      && x != y && x.core.sequence == y.core.sequence == first.entry.core.sequence + 1
      && Receipted(system, steps, 0) == [x.core.sequence, x.core.sequence]
      && var calls := Run(system, steps).value.calls;
      && |calls| == 2 && calls[0].phase == Done(Returned(x)) && calls[1].phase == Done(Returned(y))
  {
    steps := FirstReceipted(system, first, a, b);
    var (x, y) := (EntryFor(system, first, a), EntryFor(system, first, b));
    var (rb, ab) := (ReadyFor(system, first, b), AcceptedFor(system, first, b));
    var learned := Learned(Nothing(), AcceptedFor(system, first, a));
    var (done, after) := (Done(Returned(x)), [first] + [Record(b.key, y)]);
    steps := Moves(system, steps, [x.core.sequence], [first], learned, a, done, b, rb, Append(1), after, ab);
    steps := Receipting(system, steps, [x.core.sequence], after, learned, a, done, b, ab, 1, y);
    assert [x.core.sequence] + [y.core.sequence] == [x.core.sequence, x.core.sequence];
  }
}
