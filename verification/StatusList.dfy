/** One status list of src/delegation/statuslist-manager.ts under any interleaving of updates,
    allocations and checks. The published encoding is taken as lossless. */
module StatusList {
  import opened Wrappers
  import opened Digits
  import opened Bitstring

  const MAX_STATUS_LIST_BYTES := 16 * 1024 * 1024

  const MAX_SAFE_INTEGER := 9007199254740991

  datatype Purpose = Revocation | Suspension

  datatype StatusList = StatusList(purpose: Purpose, bits: Bits)

  /** Digits only, and no larger than a safe integer. */
  function ParseStatusListIndex(raw: string): Option<nat> {
    if raw != [] && AllDigits(raw) && NatOf(raw) <= MAX_SAFE_INTEGER then Some(NatOf(raw)) else None
  }

  /** An index is read as the number that its digits denote: the text of any number up to the largest
      safe integer reads back as that number, and of none beyond. */
  lemma {:induction false} IndexReadsBack(n: nat)
    ensures ParseStatusListIndex(TextOf(n)) == if n <= 9007199254740991 then Some(n) else None
  {
    TextReadsBack(n);
  }

  /** Nothing but digits is an index. */
  lemma {:induction false} OnlyDigitsIndex(raw: string)
    ensures raw == [] || (exists i :: 0 <= i < |raw| && !('0' <= raw[i] <= '9')) ==> ParseStatusListIndex(raw) == None
  {
  }

  function Decode(list: StatusList): Option<Bits> {
    if |list.bits| > MAX_STATUS_LIST_BYTES then None else Some(list.bits)
  }

  /** What `doUpdateStatus` writes after reading `list`, or None when it throws. */
  function Updated(list: Option<StatusList>, indexText: string, value: bool): (after: Option<StatusList>)
    ensures after.Some? ==>
      && list.Some? && ParseStatusListIndex(indexText).Some?
      && var index := ParseStatusListIndex(indexText).value;
      && index < 8 * |list.value.bits|
      && after.value.purpose == list.value.purpose
      && View(after.value.bits) == View(list.value.bits)[index := value]
  {
    if list.None? || Decode(list.value).None? then None
    else
      var index := ParseStatusListIndex(indexText);
      var bits := list.value.bits;
      if index.None? || index.value >= 8 * |bits| then None
      else
        UpdateIsFlagUpdate(bits, index.value, value);
        Some(list.value.(bits := WithFlag(bits, index.value, value)))
  }

  method DoUpdateStatus(list: Option<StatusList>, indexText: string, value: bool) returns (after: Option<StatusList>)
    ensures after == Updated(list, indexText, value)
  {
    if list.None? || Decode(list.value).None? {
      return None;
    }
    var manager := new BitstringManager.Decoded(list.value.bits);
    var index := ParseStatusListIndex(indexText);
    if index.None? {
      return None;
    }
    var inRange := manager.SetBit(index.value, value);
    if !inRange {
      return None;
    }
    ghost var expected := Updated(list, indexText, value);
    assert View(manager.bits[..]) == View(expected.value.bits);
    ViewInjective(manager.bits[..], expected.value.bits);
    return Some(list.value.(bits := manager.bits[..]));
  }

  /** `checkStatus`: one read of the list, then one bit of it; None is a throw. */
  function CheckStatus(list: Option<StatusList>, purpose: Purpose, indexText: string): Option<bool> {
    if list.None? || list.value.purpose != purpose || Decode(list.value).None? then None
    else
      var index := ParseStatusListIndex(indexText);
      if index.None? || index.value >= 8 * |list.value.bits| then None else Some(View(list.value.bits)[index.value])
  }

  // ---- The lock chain ----------------------------------------------------------------

  datatype Kind = Update(indexText: string, value: bool) | Ensure

  datatype Result = Done | Capacity(entries: nat) | Failed

  /** A task in the chain; `previous` is the one it waits for. */
  datatype Task = Task(kind: Kind, previous: Option<nat>, phase: Phase)

  datatype Phase = Waiting | HasRead(view: Option<StatusList>) | Settled(applied: bool, result: Result)

  datatype Allocation = Allocation(index: nat, phase: AllocationPhase)

  datatype AllocationPhase = Allocated | Locked(task: nat) | Granted | Refused

  datatype State = State(
    list: Option<StatusList>, tasks: seq<Task>, lastLock: Option<nat>, counter: nat, allocations: seq<Allocation>)

  datatype Config = Config(purpose: Purpose, defaultListSize: nat)

  const Start := State(None, [], None, 0, [])

  datatype Step =
    | RequestUpdate(indexText: string, value: bool)
    | AllocateIndex
    | EnsureList(a: nat)
    | Read(t: nat)
    | Throw(t: nat)                          // reading, encoding or signing fails
    | Finish(t: nat, acknowledged: bool)     // the write may apply and still report failure
    | AllocationReturns(a: nat)

  /** What a task writes, if anything, and what it returns, having read `view`; None is a throw. */
  function Effect(config: Config, kind: Kind, view: Option<StatusList>): Option<(Option<StatusList>, Result)> {
    match kind
    case Update(indexText, value) =>
      var after := Updated(view, indexText, value);
      if after.None? then None else Some((after, Done))
    case Ensure =>
      if view.Some? then
        if Decode(view.value).None? then None else Some((None, Capacity(8 * |view.value.bits|)))
      else
        var bits := Zeros(ByteCount(config.defaultListSize));
        Some((Some(StatusList(config.purpose, bits)), Capacity(8 * |bits|)))
  }

  function Enqueue(s: State, kind: Kind): State {
    s.(tasks := s.tasks + [Task(kind, s.lastLock, Waiting)], lastLock := Some(|s.tasks|))
  }

  predicate Ready(s: State, t: nat) {
    && t < |s.tasks| && s.tasks[t].phase.Waiting?
    && (s.tasks[t].previous.Some? ==>
          s.tasks[t].previous.value < |s.tasks| && s.tasks[s.tasks[t].previous.value].phase.Settled?)
  }

  function Settle(s: State, t: nat, list: Option<StatusList>, applied: bool, result: Result): State
    requires t < |s.tasks|
  {
    s.(list := list, tasks := s.tasks[t := s.tasks[t].(phase := Settled(applied, result))])
  }

  function Next(config: Config, s: State, step: Step): Option<State> {
    match step
    case RequestUpdate(indexText, value) => Some(Enqueue(s, Update(indexText, value)))
    case AllocateIndex =>
      Some(s.(counter := s.counter + 1, allocations := s.allocations + [Allocation(s.counter, Allocated)]))
    case EnsureList(a) =>
      if a < |s.allocations| && s.allocations[a].phase.Allocated? then
        var locked := s.allocations[a].(phase := Locked(|s.tasks|));
        Some(Enqueue(s, Ensure).(allocations := s.allocations[a := locked]))
      else None
    case Read(t) =>
      if Ready(s, t) then Some(s.(tasks := s.tasks[t := s.tasks[t].(phase := HasRead(s.list))])) else None
    case Throw(t) =>
      if Ready(s, t) || (t < |s.tasks| && s.tasks[t].phase.HasRead?) then Some(Settle(s, t, s.list, false, Failed)) else None
    case Finish(t, acknowledged) =>
      if t < |s.tasks| && s.tasks[t].phase.HasRead? then
        match Effect(config, s.tasks[t].kind, s.tasks[t].phase.view)
        case None => Some(Settle(s, t, s.list, false, Failed))
        case Some((None, result)) => Some(Settle(s, t, s.list, false, result))
        case Some((written, result)) => Some(Settle(s, t, written, true, if acknowledged then result else Failed))
      else None
    case AllocationReturns(a) =>
      if a < |s.allocations| && s.allocations[a].phase.Locked? then
        var t := s.allocations[a].phase.task;
        if t < |s.tasks| && s.tasks[t].phase.Settled? then
          var result := s.tasks[t].phase.result;
          var granted := result.Capacity? && s.allocations[a].index < result.entries;
          Some(s.(allocations := s.allocations[a := s.allocations[a].(phase := if granted then Granted else Refused)]))
        else None
      else None
  }

  function Run(config: Config, steps: seq<Step>): Option<State> {
    if steps == [] then Some(Start)
    else
      var before := Run(config, steps[..|steps| - 1]);
      if before.None? then None else Next(config, before.value, steps[|steps| - 1])
  }

  // ---- The sequential meaning --------------------------------------------------------

  predicate Applied(task: Task) {
    task.phase.Settled? && task.phase.applied
  }

  function Write(config: Config, kind: Kind, before: Option<StatusList>): Option<StatusList> {
    match Effect(config, kind, before)
    case Some((Some(written), _)) => Some(written)
    case _ => before
  }

  /** The list after running those tasks that took effect one after another, in lock order. */
  function Replay(config: Config, tasks: seq<Task>): Option<StatusList> {
    if tasks == [] then None
    else
      var before := Replay(config, tasks[..|tasks| - 1]);
      if Applied(tasks[|tasks| - 1]) then Write(config, tasks[|tasks| - 1].kind, before) else before
  }

  /** Tasks wait for the one right before them; so whatever has started, everything before it
      has settled. */
  ghost predicate Chained(s: State) {
    && (s.lastLock == if s.tasks == [] then None else Some(|s.tasks| - 1))
    && (forall i :: 0 <= i < |s.tasks| ==> s.tasks[i].previous == if i == 0 then None else Some(i - 1))
    && (forall i, j :: 0 <= j < i < |s.tasks| && !s.tasks[i].phase.Waiting? ==> s.tasks[j].phase.Settled?)
  }

  /** A settled task did what it would have done alone, at its place in the lock order. */
  ghost predicate AsSequential(config: Config, task: Task, before: Option<StatusList>) {
    task.phase.Settled? ==>
      var effect := Effect(config, task.kind, before);
      && (task.phase.applied ==> effect.Some? && effect.value.0.Some?)
      && (!task.phase.result.Failed? ==>
            effect.Some? && effect.value.1 == task.phase.result && (effect.value.0.Some? ==> task.phase.applied))
  }

  ghost predicate AllSequential(config: Config, tasks: seq<Task>) {
    tasks == [] ||
    var n := |tasks| - 1;
    AllSequential(config, tasks[..n]) && AsSequential(config, tasks[n], Replay(config, tasks[..n]))
  }

  ghost predicate Serial(config: Config, s: State) {
    && Chained(s)
    && s.list == Replay(config, s.tasks)
    && (forall i :: 0 <= i < |s.tasks| && s.tasks[i].phase.HasRead? ==> s.tasks[i].phase.view == s.list)
    && AllSequential(config, s.tasks)
  }

  lemma {:induction false} UnappliedTail(config: Config, tasks: seq<Task>, n: nat)
    requires n <= |tasks| && forall k :: n <= k < |tasks| ==> !Applied(tasks[k])
    ensures Replay(config, tasks) == Replay(config, tasks[..n])
  {
    if n < |tasks| {
      var last := |tasks| - 1;
      UnappliedTail(config, tasks[..last], n);
      assert tasks[..last][..n] == tasks[..n];
    } else {
      assert tasks[..n] == tasks;
    }
  }

  lemma {:induction false} SequentialPrefix(config: Config, tasks: seq<Task>, n: nat)
    requires n <= |tasks| && AllSequential(config, tasks)
    ensures AllSequential(config, tasks[..n])
  {
    if n < |tasks| {
      var last := |tasks| - 1;
      SequentialPrefix(config, tasks[..last], n);
      assert tasks[..last][..n] == tasks[..n];
    } else {
      assert tasks[..n] == tasks;
    }
  }

  lemma {:induction false} WaitingTail(config: Config, tasks: seq<Task>, n: nat)
    requires n <= |tasks| && AllSequential(config, tasks[..n])
    requires forall k :: n <= k < |tasks| ==> !tasks[k].phase.Settled?
    ensures AllSequential(config, tasks)
  {
    if n < |tasks| {
      var last := |tasks| - 1;
      assert tasks[..last][..n] == tasks[..n];
      WaitingTail(config, tasks[..last], n);
    } else {
      assert tasks[..n] == tasks;
    }
  }

  lemma {:induction false} EnqueueChained(s: State, kind: Kind)
    requires Chained(s)
    ensures Chained(Enqueue(s, kind))
  {
    var after := Enqueue(s, kind);
    assert forall i :: 0 <= i < |s.tasks| ==> after.tasks[i] == s.tasks[i];
  }

  lemma {:induction false} AppendWaiting(config: Config, tasks: seq<Task>, task: Task)
    requires AllSequential(config, tasks) && task.phase.Waiting?
    ensures AllSequential(config, tasks + [task])
    ensures Replay(config, tasks + [task]) == Replay(config, tasks)
  {
    assert (tasks + [task])[..|tasks|] == tasks;
  }

  lemma {:induction false} EnqueueSerial(config: Config, s: State, kind: Kind)
    requires Serial(config, s)
    ensures Serial(config, Enqueue(s, kind))
  {
    EnqueueChained(s, kind);
    AppendWaiting(config, s.tasks, Task(kind, s.lastLock, Waiting));
  }

  /** When a task is ready or running, it runs alone: everything before it settled, everything
      after it waits, and the list is what those before it left. */
  lemma {:induction false} RunsAlone(config: Config, s: State, t: nat)
    requires Serial(config, s) && (Ready(s, t) || (t < |s.tasks| && s.tasks[t].phase.HasRead?))
    ensures forall j :: 0 <= j < t ==> s.tasks[j].phase.Settled?
    ensures forall j :: t < j < |s.tasks| ==> s.tasks[j].phase.Waiting?
    ensures s.list == Replay(config, s.tasks[..t])
  {
    if t > 0 && s.tasks[t].phase.Waiting? {
      assert s.tasks[t].previous == Some(t - 1);
      assert s.tasks[t - 1].phase.Settled?;
    }
    forall j | t < j < |s.tasks|
      ensures s.tasks[j].phase.Waiting?
    {
      assert !s.tasks[t].phase.Settled?;
    }
    UnappliedTail(config, s.tasks, t);
  }

  function WithPhase(tasks: seq<Task>, t: nat, phase: Phase): seq<Task>
    requires t < |tasks|
  {
    tasks[t := tasks[t].(phase := phase)]
  }

  lemma {:induction false} PhaseChained(s: State, t: nat, phase: Phase, list: Option<StatusList>)
    requires Chained(s) && t < |s.tasks| && !phase.Waiting?
    requires forall j :: 0 <= j < t ==> s.tasks[j].phase.Settled?
    requires forall j :: t < j < |s.tasks| ==> s.tasks[j].phase.Waiting?
    ensures Chained(s.(list := list, tasks := WithPhase(s.tasks, t, phase)))
  {
  }

  lemma {:induction false} PhaseReplay(config: Config, tasks: seq<Task>, t: nat, phase: Phase)
    requires t < |tasks| && AllSequential(config, tasks)
    requires forall j :: t < j < |tasks| ==> tasks[j].phase.Waiting?
    requires AsSequential(config, tasks[t].(phase := phase), Replay(config, tasks[..t]))
    ensures AllSequential(config, WithPhase(tasks, t, phase))
    ensures Replay(config, WithPhase(tasks, t, phase)) ==
      if phase.Settled? && phase.applied then Write(config, tasks[t].kind, Replay(config, tasks[..t]))
      else Replay(config, tasks[..t])
  {
    var after := WithPhase(tasks, t, phase);
    assert after[..t] == tasks[..t] && after[..t + 1][..t] == tasks[..t];
    SequentialPrefix(config, tasks, t);
    UnappliedTail(config, after, t + 1);
    WaitingTail(config, after, t + 1);
  }

  /** A task that runs alone may take any step that AsSequential allows. */
  lemma {:induction false} PhaseSerial(config: Config, s: State, t: nat, phase: Phase, list: Option<StatusList>)
    requires Serial(config, s) && !phase.Waiting?
    requires Ready(s, t) || (t < |s.tasks| && s.tasks[t].phase.HasRead?)
    requires AsSequential(config, s.tasks[t].(phase := phase), s.list)
    requires list == if phase.Settled? && phase.applied then Write(config, s.tasks[t].kind, s.list) else s.list
    requires phase.HasRead? ==> phase.view == s.list
    ensures Serial(config, s.(list := list, tasks := WithPhase(s.tasks, t, phase)))
  {
    RunsAlone(config, s, t);
    PhaseChained(s, t, phase, list);
    PhaseReplay(config, s.tasks, t, phase);
  }

  lemma {:induction false} FinishSerial(config: Config, s: State, t: nat, acknowledged: bool)
    requires Serial(config, s) && Next(config, s, Finish(t, acknowledged)).Some?
    ensures Serial(config, Next(config, s, Finish(t, acknowledged)).value)
  {
    assert s.tasks[t].phase.view == s.list;
    match Effect(config, s.tasks[t].kind, s.list) {
      case None => PhaseSerial(config, s, t, Settled(false, Failed), s.list);
      case Some((None, result)) => PhaseSerial(config, s, t, Settled(false, result), s.list);
      case Some((written, result)) =>
        PhaseSerial(config, s, t, Settled(true, if acknowledged then result else Failed), written);
    }
  }

  lemma {:induction false} ReadSerial(config: Config, s: State, t: nat)
    requires Serial(config, s) && Next(config, s, Read(t)).Some?
    ensures Serial(config, Next(config, s, Read(t)).value)
  {
    PhaseSerial(config, s, t, HasRead(s.list), s.list);
  }

  lemma {:induction false} ThrowSerial(config: Config, s: State, t: nat)
    requires Serial(config, s) && Next(config, s, Throw(t)).Some?
    ensures Serial(config, Next(config, s, Throw(t)).value)
  {
    PhaseSerial(config, s, t, Settled(false, Failed), s.list);
  }

  /** Allocations are nothing to the tasks. */
  lemma {:induction false} SerialFrame(config: Config, s: State, counter: nat, allocations: seq<Allocation>)
    requires Serial(config, s)
    ensures Serial(config, s.(counter := counter, allocations := allocations))
  {
    var t := s.(counter := counter, allocations := allocations);
    assert Chained(t) && t.tasks == s.tasks && t.list == s.list;
  }

  lemma {:induction false} StepKeepsSerial(config: Config, s: State, step: Step)
    requires Serial(config, s) && Next(config, s, step).Some?
    ensures Serial(config, Next(config, s, step).value)
  {
    match step {
      case RequestUpdate(indexText, value) => EnqueueSerial(config, s, Update(indexText, value));
      case EnsureList(_) =>
        EnqueueSerial(config, s, Ensure);
        SerialFrame(config, Enqueue(s, Ensure), s.counter, Next(config, s, step).value.allocations);
      case Read(t) => ReadSerial(config, s, t);
      case Throw(t) => ThrowSerial(config, s, t);
      case Finish(t, acknowledged) => FinishSerial(config, s, t, acknowledged);
      case _ => SerialFrame(config, s, Next(config, s, step).value.counter, Next(config, s, step).value.allocations);
    }
  }

  lemma {:induction false} RunKeepsSerial(config: Config, steps: seq<Step>)
    requires Run(config, steps).Some?
    ensures Serial(config, Run(config, steps).value)
  {
    if steps != [] {
      var n := |steps| - 1;
      RunKeepsSerial(config, steps[..n]);
      StepKeepsSerial(config, Run(config, steps[..n]).value, steps[n]);
    }
  }

  // ---- What a caller sees ------------------------------------------------------------

  lemma {:induction false} AtItsPlace(config: Config, tasks: seq<Task>, i: nat)
    requires AllSequential(config, tasks) && i < |tasks|
    ensures AsSequential(config, tasks[i], Replay(config, tasks[..i]))
  {
    SequentialPrefix(config, tasks, i + 1);
    assert tasks[..i + 1][..i] == tasks[..i];
  }

  /** Over every run, no two tasks overlap, the stored list is what those that took effect
      make of it one after another in lock order, and a task that returned returned what it
      returns there. */
  lemma {:induction false} RunIsSequential(config: Config, steps: seq<Step>, i: nat)
    requires Run(config, steps).Some? && i < |Run(config, steps).value.tasks|
    ensures var s := Run(config, steps).value;
      && s.list == Replay(config, s.tasks)
      && AsSequential(config, s.tasks[i], Replay(config, s.tasks[..i]))
      && (!s.tasks[i].phase.Waiting? ==> forall j :: 0 <= j < i ==> s.tasks[j].phase.Settled?)
  {
    RunKeepsSerial(config, steps);
    AtItsPlace(config, Run(config, steps).value.tasks, i);
  }

  /** The value that the last update of an index to take effect gave it; clear before any. */
  function LastValue(tasks: seq<Task>, index: nat): bool {
    if tasks == [] then false
    else
      var last := tasks[|tasks| - 1];
      if Applied(last) && last.kind.Update? && ParseStatusListIndex(last.kind.indexText) == Some(index)
      then last.kind.value
      else LastValue(tasks[..|tasks| - 1], index)
  }

  lemma {:induction false} NothingBeforeCreation(config: Config, tasks: seq<Task>, index: nat)
    requires AllSequential(config, tasks) && Replay(config, tasks).None?
    ensures !LastValue(tasks, index)
  {
    if tasks != [] {
      NothingBeforeCreation(config, tasks[..|tasks| - 1], index);
    }
  }

  lemma {:induction false} ReplayReadsLastValue(config: Config, tasks: seq<Task>, index: nat)
    requires AllSequential(config, tasks) && Replay(config, tasks).Some?
    requires index < 8 * |Replay(config, tasks).value.bits|
    ensures View(Replay(config, tasks).value.bits)[index] == LastValue(tasks, index)
  {
    var n := |tasks| - 1;
    var before := Replay(config, tasks[..n]);
    if before.None? {
      NothingBeforeCreation(config, tasks[..n], index);
      ZerosAreClear(ByteCount(config.defaultListSize));
    } else {
      ReplayKeepsSize(config, tasks, n);
      ReplayReadsLastValue(config, tasks[..n], index);
    }
  }

  /** Once it exists, a list keeps its size and purpose. */
  lemma {:induction false} ReplayKeepsSize(config: Config, tasks: seq<Task>, n: nat)
    requires n <= |tasks| && Replay(config, tasks[..n]).Some?
    ensures Replay(config, tasks).Some?
    ensures |Replay(config, tasks).value.bits| == |Replay(config, tasks[..n]).value.bits|
    ensures Replay(config, tasks).value.purpose == Replay(config, tasks[..n]).value.purpose
  {
    if n == |tasks| {
      assert tasks[..n] == tasks;
    } else {
      var last := |tasks| - 1;
      assert tasks[..last][..n] == tasks[..n];
      ReplayKeepsSize(config, tasks[..last], n);
      WriteKeepsSize(config, tasks[last].kind, Replay(config, tasks[..last]).value);
    }
  }

  lemma {:induction false} WriteKeepsSize(config: Config, kind: Kind, before: StatusList)
    ensures var after := Write(config, kind, Some(before));
      after.Some? && |after.value.bits| == |before.bits| && after.value.purpose == before.purpose
  {
    if kind.Update? && Updated(Some(before), kind.indexText, kind.value).Some? {
      var after := Updated(Some(before), kind.indexText, kind.value).value;
      assert |View(after.bits)| == |View(before.bits)|;
    }
  }

  /** A check answers with the value of the last update of its index to take effect before its
      read: no update is lost, and creating the list never clears a bit that was set. */
  lemma {:induction false} ChecksReadTheLastUpdate(
    config: Config, steps: seq<Step>, purpose: Purpose, indexText: string)
    requires Run(config, steps).Some?
    ensures var s := Run(config, steps).value;
      var answer := CheckStatus(s.list, purpose, indexText);
      answer.Some? ==> answer.value == LastValue(s.tasks, ParseStatusListIndex(indexText).value)
  {
    RunKeepsSerial(config, steps);
    var s := Run(config, steps).value;
    if CheckStatus(s.list, purpose, indexText).Some? {
      ReplayReadsLastValue(config, s.tasks, ParseStatusListIndex(indexText).value);
    }
  }

  // ---- How tasks end -----------------------------------------------------------------

  /** What keeps a task from doing its work: no list, one too large to decode, or an index that is
      malformed or beyond the list. */
  predicate Blocked(kind: Kind, before: Option<StatusList>) {
    || (before.Some? && |before.value.bits| > 16777216)
    || (kind.Update? &&
        (|| before.None?
         || ParseStatusListIndex(kind.indexText).None?
         || ParseStatusListIndex(kind.indexText).value >= 8 * |before.value.bits|))
  }

  /** What a task does: an update sets its one flag; the other kind leaves an existing list alone or
      makes a clear one of the configured size in whole bytes, and reports its number of entries. */
  lemma {:induction false} EffectExactly(config: Config, kind: Kind, before: Option<StatusList>)
    ensures var effect := Effect(config, kind, before);
      && (effect.None? <==> Blocked(kind, before))
      && (effect.Some? && before.None? ==>
            && var made := effect.value.0;
            && kind.Ensure? && made.Some? && made.value.purpose == config.purpose
            && config.defaultListSize <= 8 * |made.value.bits| < config.defaultListSize + 8
            && View(made.value.bits) == seq(8 * |made.value.bits|, _ => false)
            && effect.value.1 == Capacity(8 * |made.value.bits|))
      && (effect.Some? && before.Some? && kind.Ensure? ==> effect.value == (None, Capacity(8 * |before.value.bits|)))
      && (effect.Some? && kind.Update? ==>
            && var (written, index) := (effect.value.0, ParseStatusListIndex(kind.indexText).value);
            && written.Some? && written.value.purpose == before.value.purpose
            && View(written.value.bits) == View(before.value.bits)[index := kind.value]
            && effect.value.1 == Done)
  {
    if before.None? {
      ZerosAreClear(ByteCount(config.defaultListSize));
    }
  }

  /** A failed task failed for a reason: it threw, its write was not acknowledged, or it was blocked
      at its place in the lock order. */
  ghost predicate Earned(config: Config, steps: seq<Step>, tasks: seq<Task>, i: nat)
    requires i < |tasks|
  {
    tasks[i].phase.Settled? && tasks[i].phase.result.Failed? ==>
      Throw(i) in steps || Finish(i, false) in steps || Blocked(tasks[i].kind, Replay(config, tasks[..i]))
  }

  ghost predicate AllEarned(config: Config, steps: seq<Step>, tasks: seq<Task>) {
    forall i: nat {:trigger Earned(config, steps, tasks, i)} :: i < |tasks| ==> Earned(config, steps, tasks, i)
  }

  lemma {:induction false} StepKeepsEarned(config: Config, steps: seq<Step>, s: State, step: Step, i: nat)
    requires Serial(config, s) && Next(config, s, step).Some? && i < |Next(config, s, step).value.tasks|
    requires i < |s.tasks| ==> Earned(config, steps, s.tasks, i)
    ensures Earned(config, steps + [step], Next(config, s, step).value.tasks, i)
  {
    var after := Next(config, s, step).value;
    assert step in steps + [step];
    if i < |s.tasks| {
      if after.tasks[i] == s.tasks[i] && s.tasks[i].phase.Settled? {
        assert after.tasks[..i] == s.tasks[..i];
      } else if step.Finish? && step.t == i {
        RunsAlone(config, s, i);
        assert after.tasks[..i] == s.tasks[..i];
        EffectExactly(config, s.tasks[i].kind, s.list);
      }
    }
  }

  lemma {:induction false} StepKeepsAllEarned(config: Config, steps: seq<Step>, s: State, step: Step)
    requires Serial(config, s) && Next(config, s, step).Some? && AllEarned(config, steps, s.tasks)
    ensures AllEarned(config, steps + [step], Next(config, s, step).value.tasks)
  {
    forall i: nat | i < |Next(config, s, step).value.tasks|
      ensures Earned(config, steps + [step], Next(config, s, step).value.tasks, i)
    {
      assert i < |s.tasks| ==> Earned(config, steps, s.tasks, i);
      StepKeepsEarned(config, steps, s, step, i);
    }
  }

  /** Over every run, a task that nothing threw at and whose write was acknowledged fails only if it
      was blocked: an update whose list exists and whose index is in range is done. */
  lemma {:induction false} FailuresAreEarned(config: Config, steps: seq<Step>)
    requires Run(config, steps).Some?
    ensures AllEarned(config, steps, Run(config, steps).value.tasks)
  {
    if steps != [] {
      var (before, last) := (steps[..|steps| - 1], steps[|steps| - 1]);
      FailuresAreEarned(config, before);
      RunKeepsSerial(config, before);
      StepKeepsAllEarned(config, before, Run(config, before).value, last);
      assert before + [last] == steps;
    }
  }

  predicate MayProceed(config: Config, s: State, t: nat) {
    Next(config, s, Read(t)).Some? || Next(config, s, Finish(t, true)).Some?
  }

  lemma {:induction false} FirstUnsettledProceeds(config: Config, s: State, i: nat)
    requires Chained(s) && i < |s.tasks| && !s.tasks[i].phase.Settled?
    ensures exists t: nat :: t <= i && MayProceed(config, s, t)
  {
    if i > 0 && !s.tasks[i - 1].phase.Settled? {
      FirstUnsettledProceeds(config, s, i - 1);
    } else {
      assert MayProceed(config, s, i);
    }
  }

  /** The chain never locks up: while a task is unsettled, it or one before it can go on. */
  lemma {:induction false} SomeTaskMayProceed(config: Config, steps: seq<Step>, i: nat)
    requires Run(config, steps).Some? && i < |Run(config, steps).value.tasks|
    requires !Run(config, steps).value.tasks[i].phase.Settled?
    ensures exists t: nat :: t <= i && MayProceed(config, Run(config, steps).value, t)
  {
    RunKeepsSerial(config, steps);
    FirstUnsettledProceeds(config, Run(config, steps).value, i);
  }

  // ---- Allocation --------------------------------------------------------------------

  ghost predicate GoodAllocations(s: State) {
    && s.counter == |s.allocations|
    && forall a :: 0 <= a < |s.allocations| ==>
         && s.allocations[a].index == a
         && (s.allocations[a].phase.Locked? ==>
               s.allocations[a].phase.task < |s.tasks| && s.tasks[s.allocations[a].phase.task].kind.Ensure?)
         && (s.allocations[a].phase.Granted? ==> s.list.Some? && a < 8 * |s.list.value.bits|)
  }

  lemma {:induction false} CapacityIsTheSize(config: Config, s: State, t: nat)
    requires Serial(config, s) && t < |s.tasks| && s.tasks[t].kind.Ensure?
    requires s.tasks[t].phase.Settled? && s.tasks[t].phase.result.Capacity?
    ensures s.list.Some? && s.tasks[t].phase.result.entries == 8 * |s.list.value.bits|
  {
    AtItsPlace(config, s.tasks, t);
    assert s.tasks[..t + 1][..t] == s.tasks[..t];
    assert Replay(config, s.tasks[..t + 1]).Some?;
    ReplayKeepsSize(config, s.tasks, t + 1);
  }

  /** Allocations stay good while tasks keep their kinds and the list keeps its size. */
  lemma {:induction false} AllocationsFrame(s: State, list: Option<StatusList>, tasks: seq<Task>, lastLock: Option<nat>)
    requires GoodAllocations(s)
    requires |s.tasks| <= |tasks| && forall t :: 0 <= t < |s.tasks| ==> tasks[t].kind == s.tasks[t].kind
    requires s.list.Some? ==> list.Some? && |list.value.bits| == |s.list.value.bits|
    ensures GoodAllocations(s.(list := list, tasks := tasks, lastLock := lastLock))
  {
  }

  lemma {:induction false} FinishKeepsAllocations(config: Config, s: State, t: nat, acknowledged: bool)
    requires Serial(config, s) && GoodAllocations(s) && Next(config, s, Finish(t, acknowledged)).Some?
    ensures GoodAllocations(Next(config, s, Finish(t, acknowledged)).value)
  {
    var after := Next(config, s, Finish(t, acknowledged)).value;
    assert s.tasks[t].phase.view == s.list;
    if s.list.Some? {
      WriteKeepsSize(config, s.tasks[t].kind, s.list.value);
    }
    AllocationsFrame(s, after.list, after.tasks, after.lastLock);
  }

  lemma {:induction false} ReturnKeepsAllocations(config: Config, s: State, a: nat)
    requires Serial(config, s) && GoodAllocations(s) && Next(config, s, AllocationReturns(a)).Some?
    ensures GoodAllocations(Next(config, s, AllocationReturns(a)).value)
  {
    var t := s.allocations[a].phase.task;
    if s.tasks[t].phase.result.Capacity? {
      CapacityIsTheSize(config, s, t);
    }
  }

  lemma {:induction false} EnsureKeepsAllocations(config: Config, s: State, a: nat)
    requires GoodAllocations(s) && Next(config, s, EnsureList(a)).Some?
    ensures GoodAllocations(Next(config, s, EnsureList(a)).value)
  {
  }

  lemma {:induction false} StepKeepsAllocations(config: Config, s: State, step: Step)
    requires Serial(config, s) && GoodAllocations(s) && Next(config, s, step).Some?
    ensures GoodAllocations(Next(config, s, step).value)
  {
    var after := Next(config, s, step).value;
    match step {
      case AllocateIndex =>
      case EnsureList(a) => EnsureKeepsAllocations(config, s, a);
      case Finish(t, acknowledged) => FinishKeepsAllocations(config, s, t, acknowledged);
      case AllocationReturns(a) => ReturnKeepsAllocations(config, s, a);
      case _ => AllocationsFrame(s, after.list, after.tasks, after.lastLock);
    }
  }

  lemma {:induction false} RunKeepsAllocations(config: Config, steps: seq<Step>)
    requires Run(config, steps).Some?
    ensures GoodAllocations(Run(config, steps).value)
  {
    if steps != [] {
      var n := |steps| - 1;
      RunKeepsAllocations(config, steps[..n]);
      RunKeepsSerial(config, steps[..n]);
      StepKeepsAllocations(config, Run(config, steps[..n]).value, steps[n]);
    }
  }

  /** An allocation whose task has ended returns, and is granted exactly when the task did not fail and
      the allocated index is one of the list's. */
  lemma {:induction false} GrantedExactly(config: Config, steps: seq<Step>, a: nat)
    requires Run(config, steps).Some? && a < |Run(config, steps).value.allocations|
    requires var s := Run(config, steps).value;
      && s.allocations[a].phase.Locked? && s.allocations[a].phase.task < |s.tasks|
      && s.tasks[s.allocations[a].phase.task].phase.Settled?
    ensures var s := Run(config, steps).value;
      var (result, after) := (s.tasks[s.allocations[a].phase.task].phase.result, Next(config, s, AllocationReturns(a)));
      && after.Some? && after.value.tasks == s.tasks && after.value.list == s.list
      && (after.value.allocations[a].phase == Granted
          <==> !result.Failed? && s.list.Some? && a < 8 * |s.list.value.bits|)
      && (after.value.allocations[a].phase == Granted || after.value.allocations[a].phase == Refused)
  {
    RunKeepsAllocations(config, steps);
    RunKeepsSerial(config, steps);
    var s := Run(config, steps).value;
    var t := s.allocations[a].phase.task;
    AtItsPlace(config, s.tasks, t);
    if s.tasks[t].phase.result.Capacity? {
      CapacityIsTheSize(config, s, t);
    }
  }

  /** Every index granted is below the capacity of the stored list, whatever else happens to the
      list, and no index is granted twice. */
  lemma {:induction false} GrantedIndicesFit(config: Config, steps: seq<Step>, a: nat, b: nat)
    requires Run(config, steps).Some?
    requires var allocations := Run(config, steps).value.allocations;
      a < |allocations| && b < |allocations| && allocations[a].phase.Granted?
    ensures var s := Run(config, steps).value;
      && s.list.Some? && s.allocations[a].index < 8 * |s.list.value.bits|
      && (s.allocations[a].index == s.allocations[b].index ==> a == b)
  {
    RunKeepsAllocations(config, steps);
  }
}
