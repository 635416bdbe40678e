/** Mirror ingestion, src/audit/mirror-service.ts: entries of one recorder's chain delivered in
    any order, repeatedly and concurrently. */
module Mirror {
  import opened Wrappers
  import opened Hashing
  import opened Journal
  import opened HashChain

  datatype Outcome = Accepted(entry: Entry) | VerificationFailed | OutOfOrder | ContinuityFailed

  /** The idempotency key that a mirror derives from an entry digest. */
  type KeyOf = Digest -> Digest

  predicate TooEarly(head: Option<Head>, sequence: nat) {
    if head.None? then sequence > 0 else sequence > head.value.sequence + 1
  }

  predicate Continuous(head: Option<Head>, entry: Entry) {
    if head.None? then entry.core.sequence == 0 && entry.core.previousEntryDigest == None
    else entry.core.sequence == head.value.sequence + 1 && entry.core.previousEntryDigest == Some(head.value.entryDigest)
  }

  function Settled(entry: Entry, duplicate: Entry): Outcome {
    if duplicate.entryDigest != entry.entryDigest then ContinuityFailed else Accepted(duplicate)
  }

  // ---- Interleavings -----------------------------------------------------------------

  datatype Phase = Started | ReadingHead | Appending(head: Option<Head>) | Rechecking | Done(outcome: Outcome)

  datatype Call = Call(entry: Entry, phase: Phase)

  datatype State = State(records: seq<Record>, calls: seq<Call>)

  /** Reads carry the view of the mirror's journal that they were served from. */
  datatype Step =
    | Deliver(entry: Entry)
    | LookUp(c: nat, view: seq<Record>)
    | ReadHead(c: nat, view: seq<Record>)
    | Append(c: nat)
    | LookUpAgain(c: nat, view: seq<Record>)

  const Start := State([], [])

  function Move(keyOf: KeyOf, s: State, call: Call, step: Step): Option<(seq<Record>, Phase)> {
    var key := keyOf(call.entry.entryDigest);
    match (call.phase, step)
    case (Started, LookUp(_, view)) =>
      var duplicate := Lookup(view, key);
      Some((s.records, if duplicate.Some? then Done(Settled(call.entry, duplicate.value)) else ReadingHead))
    case (ReadingHead, ReadHead(_, view)) =>
      var head := HeadOf(view);
      Some((s.records,
            if TooEarly(head, call.entry.core.sequence) then Done(OutOfOrder)
            else if !Continuous(head, call.entry) then Done(ContinuityFailed)
            else Appending(head)))
    case (Appending(head), Append(_)) =>
      var (records, result) := AppendTo(s.records, head, call.entry, key);
      Some((records, match result
                     case Appended(entry) => Done(Accepted(entry))
                     case Duplicate(entry) => Done(Accepted(entry))
                     case _ => Rechecking))
    case (Rechecking, LookUpAgain(_, view)) =>
      var raced := Lookup(view, key);
      Some((s.records,
            if raced.Some? && raced.value.entryDigest == call.entry.entryDigest then Done(Accepted(raced.value))
            else Done(ContinuityFailed)))
    case _ => None
  }

  function Next(keyOf: KeyOf, s: State, step: Step): Option<State> {
    match step
    case Deliver(entry) => Some(s.(calls := s.calls + [Call(entry, Started)]))
    case _ =>
      if step.c < |s.calls| then
        var moved := Move(keyOf, s, s.calls[step.c], step);
        if moved.None? then None
        else Some(State(moved.value.0, s.calls[step.c := s.calls[step.c].(phase := moved.value.1)]))
      else None
  }

  /** Entries come from the recorder's chain; reads may lag but never invent. */
  predicate Faithful(chain: seq<Entry>, s: State, step: Step) {
    match step
    case Deliver(entry) => entry in chain
    case Append(_) => true
    case _ => step.view <= s.records
  }

  function Run(keyOf: KeyOf, steps: seq<Step>): Option<State> {
    if steps == [] then Some(Start)
    else
      var before := Run(keyOf, steps[..|steps| - 1]);
      if before.None? then None else Next(keyOf, before.value, steps[|steps| - 1])
  }

  ghost predicate FaithfulRun(keyOf: KeyOf, chain: seq<Entry>, steps: seq<Step>) {
    Run(keyOf, steps).Some?
    && (steps != [] ==>
          FaithfulRun(keyOf, chain, steps[..|steps| - 1])
          && Faithful(chain, Run(keyOf, steps[..|steps| - 1]).value, steps[|steps| - 1]))
  }

  /** A hash-chained list whose digests identify its entries, under keys that do not collide. */
  ghost predicate RecorderChain(keyOf: KeyOf, chain: seq<Entry>) {
    && Linked(chain) && DigestsIdentify(Among(chain))
    && (forall a, b :: a in chain && b in chain && keyOf(a.entryDigest) == keyOf(b.entryDigest) ==>
          a.entryDigest == b.entryDigest)
  }

  /** The mirror holds exactly the first entries of the chain, each under its own key. */
  ghost predicate Mirrors(keyOf: KeyOf, chain: seq<Entry>, records: seq<Record>) {
    && |records| <= |chain|
    && forall i :: 0 <= i < |records| ==> records[i] == Record(keyOf(chain[i].entryDigest), chain[i])
  }

  ghost predicate GoodPhase(keyOf: KeyOf, records: seq<Record>, call: Call) {
    match call.phase
    case Appending(head) => Continuous(head, call.entry)
    case Done(Accepted(entry)) => entry == call.entry && Record(keyOf(entry.entryDigest), entry) in records
    case _ => true
  }

  ghost predicate Inv(keyOf: KeyOf, chain: seq<Entry>, s: State) {
    && Mirrors(keyOf, chain, s.records)
    && (forall c :: 0 <= c < |s.calls| ==> s.calls[c].entry in chain && GoodPhase(keyOf, s.records, s.calls[c]))
  }

  lemma {:induction false} SameEntry(chain: seq<Entry>, a: Entry, b: Entry)
    requires DigestsIdentify(Among(chain)) && a in chain && b in chain && a.entryDigest == b.entryDigest
    ensures a == b
  {
    assert a in Among(chain) && b in Among(chain);
  }

  /** What is found under an entry's key is that entry. */
  lemma {:induction false} FoundIsEntry(
    keyOf: KeyOf, chain: seq<Entry>, records: seq<Record>, view: seq<Record>, entry: Entry)
    requires RecorderChain(keyOf, chain) && Mirrors(keyOf, chain, records) && view <= records && entry in chain
    ensures var found := Lookup(view, keyOf(entry.entryDigest));
      found.Some? ==> found.value == entry && Record(keyOf(entry.entryDigest), entry) in records
  {
    var found := Lookup(view, keyOf(entry.entryDigest));
    if found.Some? {
      var i :| 0 <= i < |view| && view[i] == Record(keyOf(entry.entryDigest), found.value);
      assert records[i] == view[i];
      SameEntry(chain, chain[i], entry);
    }
  }

  /** The only entry that a compare-and-append accepts is the next one of the chain. */
  lemma {:induction false} AppendExtends(
    keyOf: KeyOf, chain: seq<Entry>, records: seq<Record>, head: Option<Head>, entry: Entry)
    requires RecorderChain(keyOf, chain) && Mirrors(keyOf, chain, records) && entry in chain && Continuous(head, entry)
    ensures var (after, result) := AppendTo(records, head, entry, keyOf(entry.entryDigest));
      && Mirrors(keyOf, chain, after) && records <= after
      && !result.IdempotencyConflict?
      && (result.Appended? || result.Duplicate? ==>
            result.entry == entry && Record(keyOf(entry.entryDigest), entry) in after)
  {
    var key := keyOf(entry.entryDigest);
    var (after, result) := AppendTo(records, head, entry, key);
    FoundIsEntry(keyOf, chain, records, records, entry);
    if result.Appended? {
      var k :| 0 <= k < |chain| && chain[k] == entry;
      assert chain[k].core.sequence == k;
      if records != [] {
        assert records[|records| - 1].entry == chain[|records| - 1];
        assert chain[|records| - 1].core.sequence == |records| - 1;
      }
      assert k == |records|;
      assert after[|records|] == Record(key, entry);
    }
  }

  lemma {:induction false} MoveGood(keyOf: KeyOf, chain: seq<Entry>, s: State, call: Call, step: Step)
    requires RecorderChain(keyOf, chain) && Mirrors(keyOf, chain, s.records) && Faithful(chain, s, step)
    requires call.entry in chain && GoodPhase(keyOf, s.records, call) && Move(keyOf, s, call, step).Some?
    ensures var (records, phase) := Move(keyOf, s, call, step).value;
      && Mirrors(keyOf, chain, records) && s.records <= records
      && GoodPhase(keyOf, records, call.(phase := phase))
  {
    if step.Append? {
      AppendExtends(keyOf, chain, s.records, call.phase.head, call.entry);
    } else {
      FoundIsEntry(keyOf, chain, s.records, step.view, call.entry);
    }
  }

  lemma {:induction false} RunKeepsInv(keyOf: KeyOf, chain: seq<Entry>, steps: seq<Step>)
    requires RecorderChain(keyOf, chain) && FaithfulRun(keyOf, chain, steps)
    ensures Inv(keyOf, chain, Run(keyOf, steps).value)
  {
    if steps != [] {
      var n := |steps| - 1;
      RunKeepsInv(keyOf, chain, steps[..n]);
      StepKeepsInv(keyOf, chain, Run(keyOf, steps[..n]).value, steps[n]);
    }
  }

  lemma {:induction false} StepKeepsInv(keyOf: KeyOf, chain: seq<Entry>, s: State, step: Step)
    requires RecorderChain(keyOf, chain) && Inv(keyOf, chain, s)
    requires Faithful(chain, s, step) && Next(keyOf, s, step).Some?
    ensures Inv(keyOf, chain, Next(keyOf, s, step).value)
  {
    if !step.Deliver? {
      MoveGood(keyOf, chain, s, s.calls[step.c], step);
      var after := Next(keyOf, s, step).value;
      forall c | 0 <= c < |after.calls|
        ensures GoodPhase(keyOf, after.records, after.calls[c])
      {
        assert c != step.c ==> after.calls[c] == s.calls[c] && GoodPhase(keyOf, s.records, s.calls[c]);
        assert forall r :: r in s.records ==> r in after.records;
      }
    }
  }

  /** However the chain's entries are delivered, the mirror is an exact prefix of the chain, and
      a call that is accepted returns its own entry, which the mirror holds. */
  lemma {:induction false} MirrorIsAPrefix(keyOf: KeyOf, chain: seq<Entry>, steps: seq<Step>)
    requires RecorderChain(keyOf, chain) && FaithfulRun(keyOf, chain, steps)
    ensures var s := Run(keyOf, steps).value;
      && Entries(s.records) <= chain
      && (forall c :: 0 <= c < |s.calls| && s.calls[c].phase.Done? && s.calls[c].phase.outcome.Accepted? ==>
            s.calls[c].phase.outcome.entry == s.calls[c].entry && s.calls[c].entry in Entries(s.records))
  {
    RunKeepsInv(keyOf, chain, steps);
    var s := Run(keyOf, steps).value;
    forall c | 0 <= c < |s.calls| && s.calls[c].phase.Done? && s.calls[c].phase.outcome.Accepted?
      ensures s.calls[c].entry in Entries(s.records)
    {
      assert GoodPhase(keyOf, s.records, s.calls[c]);
      var i :| 0 <= i < |s.records| && s.records[i] == Record(keyOf(s.calls[c].entry.entryDigest), s.calls[c].entry);
      assert Entries(s.records)[i] == s.calls[c].entry;
    }
  }

  /** Once some delivery of every entry was accepted, the mirror is the whole chain. */
  lemma {:induction false} AllAcceptedIsTheChain(keyOf: KeyOf, chain: seq<Entry>, steps: seq<Step>)
    requires RecorderChain(keyOf, chain) && FaithfulRun(keyOf, chain, steps)
    requires forall entry :: entry in chain ==>
      exists c :: 0 <= c < |Run(keyOf, steps).value.calls|
        && Run(keyOf, steps).value.calls[c] == Call(entry, Done(Accepted(entry)))
    ensures Entries(Run(keyOf, steps).value.records) == chain
  {
    MirrorIsAPrefix(keyOf, chain, steps);
    var s := Run(keyOf, steps).value;
    if chain != [] {
      var last := |chain| - 1;
      assert chain[last] in chain;
      var c :| 0 <= c < |s.calls| && s.calls[c] == Call(chain[last], Done(Accepted(chain[last])));
      var i :| 0 <= i < |s.records| && Entries(s.records)[i] == chain[last];
      assert Entries(s.records)[i] == chain[i] && chain[i].core.sequence == i && chain[last].core.sequence == last;
    }
  }

  // ---- One undisturbed call ----------------------------------------------------------

  /** What one call makes of the mirror when nothing else runs and its reads are fresh. */
  function Ingested(keyOf: KeyOf, records: seq<Record>, entry: Entry, verified: bool): (seq<Record>, Outcome) {
    var key := keyOf(entry.entryDigest);
    var duplicate := Lookup(records, key);
    var head := HeadOf(records);
    if !verified then (records, VerificationFailed)
    else if duplicate.Some? then (records, Settled(entry, duplicate.value))
    else if TooEarly(head, entry.core.sequence) then (records, OutOfOrder)
    else if !Continuous(head, entry) then (records, ContinuityFailed)
    else (records + [Record(key, entry)], Accepted(entry))
  }

  class AuditMirrorService {
    const keyOf: KeyOf
    const journal: MemoryAuditJournal

    constructor (keyOf: KeyOf)
      ensures this.keyOf == keyOf && fresh(journal) && journal.Valid() && journal.records == []
    {
      this.keyOf := keyOf;
      journal := new MemoryAuditJournal();
    }

    method Ingest(entry: Entry, verified: bool) returns (outcome: Outcome)
      requires journal.Valid()
      modifies journal
      ensures journal.Valid()
      ensures (journal.records, outcome) == Ingested(keyOf, old(journal.records), entry, verified)
    {
      if !verified {
        return VerificationFailed;
      }
      var key := keyOf(entry.entryDigest);
      var duplicate := journal.GetByIdempotencyKey(key);
      if duplicate.Some? {
        return if duplicate.value.entryDigest != entry.entryDigest then ContinuityFailed else Accepted(duplicate.value);
      }
      var head := journal.GetHead();
      if (head.None? && entry.core.sequence > 0) || (head.Some? && entry.core.sequence > head.value.sequence + 1) {
        return OutOfOrder;
      }
      if !Continuous(head, entry) {
        return ContinuityFailed;
      }
      var result := journal.CompareAndAppend(head, entry, key);
      return Accepted(result.entry);
    }
  }

  /** Even for verified entries of other chains, a mirror stays one hash-chained list: an entry
      is taken in exactly when it links to the current end under a new key. */
  lemma {:induction false} IngestKeepsLinked(keyOf: KeyOf, records: seq<Record>, entry: Entry, verified: bool)
    requires Linked(Entries(records))
    ensures var (after, outcome) := Ingested(keyOf, records, entry, verified);
      && Linked(Entries(after)) && records <= after
      && (after != records <==>
            verified && Lookup(records, keyOf(entry.entryDigest)).None? && Linked(Entries(records) + [entry]))
  {
    var (after, _) := Ingested(keyOf, records, entry, verified);
    LinkedSnoc(Entries(records), entry);
    assert after != records ==> Entries(after) == Entries(records) + [entry];
    if records != [] {
      assert Entries(records)[|records| - 1].core.sequence == |records| - 1;
    }
  }

  /** What one undisturbed call answers: an unverified entry fails verification; one held already is
      accepted, as the entry that is held; one from further on is out of order; one that links to the
      end under a new key is accepted; and anything else breaks continuity. */
  lemma {:induction false} IngestAnswersExactly(keyOf: KeyOf, records: seq<Record>, entry: Entry, verified: bool)
    requires Linked(Entries(records))
    ensures var (after, outcome) := Ingested(keyOf, records, entry, verified);
      var held := Lookup(records, keyOf(entry.entryDigest));
      && (outcome == VerificationFailed <==> !verified)
      && (verified && held.Some? ==>
            outcome == if held.value.entryDigest == entry.entryDigest then Accepted(held.value) else ContinuityFailed)
      && (verified && held.None? ==>
            && (outcome == OutOfOrder <==> entry.core.sequence > |records|)
            && (outcome == Accepted(entry) <==> Linked(Entries(records) + [entry]))
            && (outcome == Accepted(entry) <==> after == records + [Record(keyOf(entry.entryDigest), entry)])
            && (outcome == ContinuityFailed <==>
                  entry.core.sequence <= |records| && !Linked(Entries(records) + [entry])))
  {
    LinkedSnoc(Entries(records), entry);
    if records != [] {
      assert Entries(records)[|records| - 1].core.sequence == |records| - 1;
    }
  }

  /** A call that reads the mirror as it is and is not disturbed moves through its steps to that answer. */
  lemma {:induction false} FreshMovesIngest(keyOf: KeyOf, s: State, call: Call)
    requires call.phase.Started?
    ensures var (after, outcome) := Ingested(keyOf, s.records, call.entry, true);
      var looked := Move(keyOf, s, call, LookUp(0, s.records));
      && looked.Some?
      && if Lookup(s.records, keyOf(call.entry.entryDigest)).Some? then
           looked.value == (s.records, Done(outcome)) && after == s.records
         else
           && looked.value == (s.records, ReadingHead)
           && var read := Move(keyOf, s, call.(phase := ReadingHead), ReadHead(0, s.records));
           && read.Some? && read.value.0 == s.records
           && if outcome.Accepted? then
                && read.value.1.Appending?
                && Move(keyOf, s, call.(phase := read.value.1), Append(0)) == Some((after, Done(outcome)))
              else read.value.1 == Done(outcome) && after == s.records
  {
  }

  /** A call whose append another delivery of the entry, or another entry, came before looks again:
      it accepts exactly the entry with its digest. */
  lemma {:induction false} OvertakenCallRechecks(keyOf: KeyOf, s: State, call: Call, view: seq<Record>)
    requires call.phase.Appending? && call.phase.head != HeadOf(s.records)
    requires Lookup(s.records, keyOf(call.entry.entryDigest)).None?
    ensures Move(keyOf, s, call, Append(0)) == Some((s.records, Rechecking))
    ensures var found := Lookup(view, keyOf(call.entry.entryDigest));
      Move(keyOf, s, call.(phase := Rechecking), LookUpAgain(0, view)) == Some((s.records, Done(
        if found.Some? && found.value.entryDigest == call.entry.entryDigest then Accepted(found.value)
        else ContinuityFailed)))
  {
  }

  lemma {:induction false} MirroredEntries(keyOf: KeyOf, chain: seq<Entry>, records: seq<Record>)
    requires RecorderChain(keyOf, chain) && Mirrors(keyOf, chain, records)
    ensures Entries(records) == chain[..|records|] && Linked(Entries(records))
    ensures |records| < |chain| ==> Linked(Entries(records) + [chain[|records|]])
  {
    LinkedPrefix(chain, |records|);
    if |records| < |chain| {
      LinkedPrefix(chain, |records| + 1);
      assert chain[..|records| + 1] == chain[..|records|] + [chain[|records|]];
    }
  }

  lemma {:induction false} HeldIsFound(keyOf: KeyOf, chain: seq<Entry>, records: seq<Record>, j: nat)
    requires RecorderChain(keyOf, chain) && Mirrors(keyOf, chain, records) && j < |records|
    ensures Lookup(records, keyOf(chain[j].entryDigest)) == Some(chain[j])
  {
    assert records[j] == Record(keyOf(chain[j].entryDigest), chain[j]) && records[j] in records;
    FoundIsEntry(keyOf, chain, records, records, chain[j]);
  }

  lemma {:induction false} LaterIsNotFound(keyOf: KeyOf, chain: seq<Entry>, records: seq<Record>, j: nat)
    requires RecorderChain(keyOf, chain) && Mirrors(keyOf, chain, records) && |records| <= j < |chain|
    ensures Lookup(records, keyOf(chain[j].entryDigest)).None?
  {
    FoundIsEntry(keyOf, chain, records, records, chain[j]);
    forall i | 0 <= i < |records|
      ensures records[i].entry != chain[j]
    {
      assert chain[i].core.sequence == i && chain[j].core.sequence == j;
    }
  }

  /** A mirror that holds k entries of the chain accepts the next one and everything before it,
      and asks to be retried for everything later: retrying makes progress until it is complete. */
  lemma {:induction false} RetryMakesProgress(keyOf: KeyOf, chain: seq<Entry>, records: seq<Record>, j: nat)
    requires RecorderChain(keyOf, chain) && Mirrors(keyOf, chain, records) && j < |chain|
    ensures var (after, outcome) := Ingested(keyOf, records, chain[j], true);
      if j > |records| then outcome == OutOfOrder && after == records
      else outcome == Accepted(chain[j]) && Entries(after) == chain[..if j == |records| then j + 1 else |records|]
  {
    MirroredEntries(keyOf, chain, records);
    IngestAnswersExactly(keyOf, records, chain[j], true);
    if j < |records| {
      HeldIsFound(keyOf, chain, records, j);
    } else {
      LaterIsNotFound(keyOf, chain, records, j);
      assert chain[j].core.sequence == j;
    }
    var after := Ingested(keyOf, records, chain[j], true).0;
    if j == |records| {
      assert Entries(after) == Entries(records) + [chain[j]];
    }
  }
}
