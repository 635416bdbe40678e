/** The append loop of src/audit/recorder-service.ts, against a journal that may lag, roll back
    or fork between any two calls. */
module Recorder {
  import opened Wrappers
  import opened Hashing
  import opened Journal

  /** One event to append; it is the recorder's own genesis exactly when its event says so. */
  datatype Request = Request(key: Digest, event: Event)

  datatype Failure =
    | GenesisMismatch
    | EventIdConflict
    | GenesisNotFirst
    | ReplacesGenesis
    | AppendThrew
    | Regression
    | NoAdvance
    | RetriesExhausted

  datatype Outcome = Returned(entry: Entry) | Failed(failure: Failure)

  /** What one recorder remembers: the highest head it appended, and the highest reported to it. */
  datatype Known = Known(committed: Option<Head>, reported: Option<Head>)

  predicate SameHead(left: Option<Head>, right: Option<Head>) {
    left == right
  }

  /** The later of two heads; at an equal sequence the first one is kept. */
  function HigherHead(current: Option<Head>, candidate: Option<Head>): Option<Head> {
    if candidate.None? then current
    else if current.None? then candidate
    else if candidate.value.sequence > current.value.sequence then candidate else current
  }

  predicate Forks(known: Option<Head>, actual: Option<Head>) {
    && known.Some? && actual.Some?
    && known.value.sequence == actual.value.sequence && known.value.entryDigest != actual.value.entryDigest
  }

  /** When `assertNoRegression` throws. */
  predicate Regressed(actual: Option<Head>, known: Known) {
    || (known.committed.Some? && (actual.None? || actual.value.sequence < known.committed.value.sequence))
    || Forks(known.committed, actual) || Forks(known.reported, actual)
  }

  function ValidateExistingGenesis(existing: Entry, config: nat): Outcome {
    if existing.core.sequence == 0 && existing.core.previousEntryDigest == None
       && existing.core.event.Genesis? && existing.core.event.config == config
    then Returned(existing) else Failed(GenesisMismatch)
  }

  function ResolveDuplicate(existing: Entry, eventDigest: Digest): Outcome {
    if existing.eventDigest != eventDigest then Failed(EventIdConflict) else Returned(existing)
  }

  /** How an entry that already has the request's identity settles the request. */
  function Resolve(digests: Digests, request: Request, existing: Entry): Outcome {
    if request.event.Genesis? then ValidateExistingGenesis(existing, request.event.config)
    else ResolveDuplicate(existing, digests.event(request.event))
  }

  /** The entry that is already there is the one that was asked for: for the recorder's own genesis, a
      genesis of the same configuration at sequence 0 with nothing before it, and for any other
      event, an entry with its content. */
  predicate IsTheOneAskedFor(digests: Digests, request: Request, existing: Entry) {
    match request.event
    case Genesis(config, _) =>
      && existing.core.sequence == 0 && existing.core.previousEntryDigest == None
      && existing.core.event.Genesis? && existing.core.event.config == config
    case Produced(_, _) => digests.event(request.event) == existing.eventDigest
  }

  /** A duplicate is returned exactly when it is the one asked for; otherwise the call fails, as a
      mismatched genesis or as a reused identity. */
  lemma {:induction false} ResolvesExactly(digests: Digests, request: Request, existing: Entry)
    ensures Resolve(digests, request, existing) ==
      if IsTheOneAskedFor(digests, request, existing) then Returned(existing)
      else if request.event.Genesis? then Failed(GenesisMismatch) else Failed(EventIdConflict)
  {
  }

  function NextSequence(head: Option<Head>): nat {
    if head.None? then 0 else head.value.sequence + 1
  }

  datatype Built = Candidate(entry: Entry) | Rejected(failure: Failure)

  function BuildCandidate(digests: Digests, event: Event, head: Option<Head>, now: int): (built: Built)
    ensures built.Candidate? <==> (event.Genesis? <==> NextSequence(head) == 0)
    ensures built.Candidate? ==>
      && Placed(digests, built.entry, NextSequence(head))
      && built.entry.core.previousEntryDigest == DigestOf(head)
      && built.entry.eventDigest == digests.event(event)
  {
    var sequence := NextSequence(head);
    if event.Genesis? != (sequence == 0) then
      Rejected(if event.Genesis? then GenesisNotFirst else ReplacesGenesis)
    else
      var core := EntryCore(sequence, DigestOf(head), now, event);
      Candidate(Entry(core, digests.event(event), digests.entry(core)))
  }

  function HeadAfter(entry: Entry): Option<Head> {
    Some(Head(entry.core.sequence, entry.entryDigest))
  }

  // ---- One submission at a time, against any journal ---------------------------------

  /** A compare-and-append that answers or throws. `Accepted` means it appended the candidate. */
  datatype Reply = Accepted | Found(existing: Entry) | Conflict(actualHead: Option<Head>) | Threw

  /** Everything the journal and the clock say during one attempt. */
  datatype Attempt = Attempt(observedHead: Option<Head>, raced: Option<Entry>, now: int, reply: Reply)

  datatype Ending = Ending(outcome: Outcome, appended: bool, known: Known)

  /** What one attempt leads to: an ending, or another attempt with updated heads. */
  datatype AfterAttempt = Ends(ending: Ending) | Retries(known: Known)

  function Try(digests: Digests, request: Request, known: Known, attempt: Attempt): AfterAttempt {
    var head := HigherHead(known.committed, attempt.observedHead);
    if request.event.Genesis? && head.Some? && attempt.raced.Some? then
      Ends(Ending(ValidateExistingGenesis(attempt.raced.value, request.event.config), false, known))
    else
      match BuildCandidate(digests, request.event, head, attempt.now)
      case Rejected(failure) => Ends(Ending(Failed(failure), false, known))
      case Candidate(entry) =>
        match attempt.reply
        case Threw => Ends(Ending(Failed(AppendThrew), false, known))
        case Found(existing) => Ends(Ending(Resolve(digests, request, existing), false, known))
        case Accepted =>
          var after := HeadAfter(entry);
          Ends(Ending(Returned(entry), true,
                      Known(HigherHead(known.committed, after), HigherHead(known.reported, after))))
        case Conflict(actual) =>
          if Regressed(actual, known) then Ends(Ending(Failed(Regression), false, known))
          else
            var updated := known.(reported := HigherHead(known.reported, actual));
            if SameHead(head, actual) then Ends(Ending(Failed(NoAdvance), false, updated)) else Retries(updated)
  }

  function AppendFrom(
    digests: Digests, request: Request, known: Known, journal: nat -> Attempt, attempt: nat, maxAppendConflicts: nat): Ending
    requires attempt <= maxAppendConflicts + 1
    decreases maxAppendConflicts + 1 - attempt
  {
    if attempt > maxAppendConflicts then Ending(Failed(RetriesExhausted), false, known)
    else
      match Try(digests, request, known, journal(attempt))
      case Ends(ending) => ending
      case Retries(updated) => AppendFrom(digests, request, updated, journal, attempt + 1, maxAppendConflicts)
  }

  predicate Beyond(head: Option<Head>, sequence: nat) {
    head.Some? ==> sequence > head.value.sequence
  }

  /** Whatever the journal answers, an append that this recorder gets back lies strictly beyond
      everything it appended before; any other ending leaves what it committed alone. */
  lemma {:induction false} AppendsMoveForward(
    digests: Digests, request: Request, known: Known, journal: nat -> Attempt, attempt: nat, maxAppendConflicts: nat)
    requires attempt <= maxAppendConflicts + 1
    ensures var ending := AppendFrom(digests, request, known, journal, attempt, maxAppendConflicts);
      if ending.appended then
        && ending.outcome.Returned?
        && ending.outcome.entry.core.event == request.event
        && Placed(digests, ending.outcome.entry, ending.outcome.entry.core.sequence)
        && Beyond(known.committed, ending.outcome.entry.core.sequence)
        && ending.known.committed == HeadAfter(ending.outcome.entry)
      else ending.known.committed == known.committed
    decreases maxAppendConflicts + 1 - attempt
  {
    if attempt <= maxAppendConflicts {
      var step := Try(digests, request, known, journal(attempt));
      if step.Retries? {
        AppendsMoveForward(digests, request, step.known, journal, attempt + 1, maxAppendConflicts);
      }
    }
  }

  /** The head that an attempt appends to. */
  function AttemptHead(known: Known, attempt: Attempt): Option<Head> {
    HigherHead(known.committed, attempt.observedHead)
  }

  /** The attempt gets as far as its append: no raced genesis is found, and a genesis goes first and
      nothing else does. */
  predicate Reaches(request: Request, known: Known, attempt: Attempt) {
    var head := AttemptHead(known, attempt);
    && !(request.event.Genesis? && head.Some? && attempt.raced.Some?)
    && (request.event.Genesis? <==> head.None?)
  }

  /** The entry that follows a head and records the event. */
  predicate Follows(digests: Digests, entry: Entry, head: Option<Head>, event: Event, now: int) {
    && entry.core.sequence == (if head.None? then 0 else head.value.sequence + 1)
    && entry.core.previousEntryDigest == (if head.None? then None else Some(head.value.entryDigest))
    && entry.core.event == event && entry.core.recordedAt == now
    && entry.eventDigest == digests.event(event) && entry.entryDigest == digests.entry(entry.core)
  }

  /** The conflicts of the attempts before `n` advance: each reports a head other than the one the
      attempt appended to, and no regression. */
  predicate Advances(request: Request, known: Known, journal: nat -> Attempt, attempt: nat, n: nat)
    requires attempt <= n
    decreases n - attempt
  {
    attempt == n ||
    (&& Reaches(request, known, journal(attempt)) && journal(attempt).reply.Conflict?
     && var actual := journal(attempt).reply.actualHead;
     && !Regressed(actual, known) && actual != AttemptHead(known, journal(attempt))
     && Advances(request, known.(reported := HigherHead(known.reported, actual)), journal, attempt + 1, n))
  }

  /** A submission is retried through conflicts that advance, and then ends as the journal's answer
      says: with the entry that follows the attempt's head, with the entry found under its identity
      if that is the one asked for, or with the error; and with its retries used up it gives up. */
  lemma {:induction false} EndsAsAnswered(
    digests: Digests, request: Request, known: Known, journal: nat -> Attempt, attempt: nat, maxAppendConflicts: nat,
    n: nat)
    requires attempt <= n <= maxAppendConflicts + 1 && Advances(request, known, journal, attempt, n)
    requires n <= maxAppendConflicts ==> Reaches(request, known, journal(n))
    ensures var ending := AppendFrom(digests, request, known, journal, attempt, maxAppendConflicts);
      if n > maxAppendConflicts then ending.outcome == Failed(RetriesExhausted) && !ending.appended
      else
        var answer := journal(n);
        && (answer.reply.Accepted? ==>
              && ending.appended && ending.outcome.Returned?
              && Follows(digests, ending.outcome.entry, AttemptHead(known, answer), request.event, answer.now))
        && (answer.reply.Found? ==>
              && !ending.appended
              && (ending.outcome == Returned(answer.reply.existing) <==>
                    IsTheOneAskedFor(digests, request, answer.reply.existing)))
        && (answer.reply.Threw? ==> !ending.appended && ending.outcome == Failed(AppendThrew))
    decreases n - attempt
  {
    if attempt < n {
      var actual := journal(attempt).reply.actualHead;
      EndsAsAnswered(digests, request, known.(reported := HigherHead(known.reported, actual)), journal, attempt + 1,
                     maxAppendConflicts, n);
    } else if n <= maxAppendConflicts && journal(n).reply.Found? {
      ResolvesExactly(digests, request, journal(n).reply.existing);
    }
  }

  /** What the recorder knows at attempt `at` when the attempts before it met conflicts. */
  function KnownAt(known: Known, journal: nat -> Attempt, attempt: nat, at: nat): Known
    requires attempt <= at && forall k :: attempt <= k < at ==> journal(k).reply.Conflict?
    decreases at - attempt
  {
    if attempt == at then known
    else
      var updated := known.(reported := HigherHead(known.reported, journal(attempt).reply.actualHead));
      KnownAt(updated, journal, attempt + 1, at)
  }

  /** Once a conflict reports a head below the committed one, or one that forks the committed head
      or the highest head reported so far, the call ends there at the latest: it neither retries
      nor appends, whatever the journal would answer next. */
  lemma {:induction false} RegressionFailsClosed(
    digests: Digests, request: Request, known: Known, journal: nat -> Attempt, attempt: nat, maxAppendConflicts: nat,
    bad: nat)
    requires attempt <= bad <= maxAppendConflicts
    requires forall k :: attempt <= k <= bad ==> journal(k).reply.Conflict?
    requires Regressed(journal(bad).reply.actualHead, KnownAt(known, journal, attempt, bad))
    ensures var ending := AppendFrom(digests, request, known, journal, attempt, maxAppendConflicts);
      && !ending.appended && ending.outcome != Failed(RetriesExhausted)
      && ending.known.committed == known.committed
    decreases bad - attempt
  {
    var step := Try(digests, request, known, journal(attempt));
    if attempt < bad && step.Retries? {
      RegressionFailsClosed(digests, request, step.known, journal, attempt + 1, maxAppendConflicts, bad);
    }
  }

  /** `appendEvent`: an entry found by its first duplicate lookup settles it before any attempt. */
  function AppendOrResolve(
    digests: Digests, request: Request, known: Known, duplicate: Option<Entry>, journal: nat -> Attempt,
    maxAppendConflicts: nat): Ending
  {
    if duplicate.Some? then Ending(Resolve(digests, request, duplicate.value), false, known)
    else AppendFrom(digests, request, known, journal, 0, maxAppendConflicts)
  }

  class AuditRecorder {
    const digests: Digests
    const maxAppendConflicts: nat
    var committedHead: Option<Head>
    var reportedHead: Option<Head>

    /** The sequences of the entries that appends by this recorder returned, in order. */
    ghost var receipted: seq<nat>

    /** No sequence is receipted twice, and the committed head is the last one receipted. */
    ghost predicate Valid()
      reads this
    {
      && (forall i, j :: 0 <= i < j < |receipted| ==> receipted[i] < receipted[j])
      && (receipted == [] <==> committedHead.None?)
      && (receipted != [] ==> committedHead.value.sequence == receipted[|receipted| - 1])
    }

    constructor (digests: Digests, maxAppendConflicts: nat)
      ensures Valid() && receipted == []
      ensures this.digests == digests && this.maxAppendConflicts == maxAppendConflicts
    {
      this.digests, this.maxAppendConflicts := digests, maxAppendConflicts;
      committedHead, reportedHead, receipted := None, None, [];
    }

    /** One turn of the retry loop. */
    method TryOnce(request: Request, said: Attempt) returns (after: AfterAttempt)
      modifies this`committedHead, this`reportedHead
      ensures after == Try(digests, request, old(Known(committedHead, reportedHead)), said)
      ensures Known(committedHead, reportedHead) == if after.Ends? then after.ending.known else after.known
    {
      var known := Known(committedHead, reportedHead);
      var head := HigherHead(known.committed, said.observedHead);
      if request.event.Genesis? && head.Some? && said.raced.Some? {
        return Ends(Ending(ValidateExistingGenesis(said.raced.value, request.event.config), false, known));
      }
      var candidate := BuildCandidate(digests, request.event, head, said.now);
      if candidate.Rejected? {
        return Ends(Ending(Failed(candidate.failure), false, known));
      }
      match said.reply {
        case Threw =>
          return Ends(Ending(Failed(AppendThrew), false, known));
        case Accepted =>
          var appended := HeadAfter(candidate.entry);
          committedHead := HigherHead(committedHead, appended);
          reportedHead := HigherHead(reportedHead, appended);
          return Ends(Ending(Returned(candidate.entry), true, Known(committedHead, reportedHead)));
        case Found(existing) =>
          return Ends(Ending(Resolve(digests, request, existing), false, known));
        case Conflict(actual) =>
          if Regressed(actual, known) {
            return Ends(Ending(Failed(Regression), false, known));
          }
          reportedHead := HigherHead(reportedHead, actual);
          if SameHead(head, actual) {
            return Ends(Ending(Failed(NoAdvance), false, Known(committedHead, reportedHead)));
          }
          return Retries(Known(committedHead, reportedHead));
      }
    }

    /** `appendEvent`: the duplicate lookup, and then the retry loop. */
    method AppendEvent(request: Request, duplicate: Option<Entry>, journal: nat -> Attempt)
      returns (outcome: Outcome, ghost appended: bool)
      requires Valid()
      modifies this
      ensures Valid()
      ensures AppendOrResolve(
        digests, request, old(Known(committedHead, reportedHead)), duplicate, journal, maxAppendConflicts)
        == Ending(outcome, appended, Known(committedHead, reportedHead))
      ensures duplicate.Some? ==>
        && !appended && unchanged(this)
        && (outcome == Returned(duplicate.value) <==> IsTheOneAskedFor(digests, request, duplicate.value))
      ensures duplicate.None? ==>
        AppendFrom(digests, request, old(Known(committedHead, reportedHead)), journal, 0, maxAppendConflicts)
        == Ending(outcome, appended, Known(committedHead, reportedHead))
      ensures appended ==> outcome.Returned?
      ensures receipted == if appended then old(receipted) + [outcome.entry.core.sequence] else old(receipted)
    {
      if duplicate.Some? {
        ResolvesExactly(digests, request, duplicate.value);
        return Resolve(digests, request, duplicate.value), false;
      }
      ghost var start := Known(committedHead, reportedHead);
      for attempt := 0 to maxAppendConflicts + 1
        invariant AppendFrom(digests, request, start, journal, 0, maxAppendConflicts)
               == AppendFrom(digests, request, Known(committedHead, reportedHead), journal, attempt, maxAppendConflicts)
        invariant committedHead == start.committed && receipted == old(receipted)
      {
        var after := TryOnce(request, journal(attempt));
        if after.Ends? {
          if after.ending.appended {
            AppendsMoveForward(digests, request, start, journal, 0, maxAppendConflicts);
            receipted := receipted + [after.ending.outcome.entry.core.sequence];
          }
          return after.ending.outcome, after.ending.appended;
        }
      }
      return Failed(RetriesExhausted), false;
    }
  }
}
