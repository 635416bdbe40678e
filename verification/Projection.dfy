/** The disposable timeline projection of src/audit/projection.ts, for one projection of one
    ledger epoch. */
module Projection {
  import opened Wrappers
  import opened Hashing
  import opened Journal
  import opened HashChain

  datatype Offset = Offset(sequence: nat, entryDigest: Digest)

  datatype TimelineRecord = TimelineRecord(sequence: nat, entryDigest: Digest, recordedAt: int, event: Event)

  datatype ApplyResult = Applied | Duplicate | Conflict(actualOffset: Option<Offset>)

  datatype Timeline = Timeline(offset: Option<Offset>, records: seq<TimelineRecord>)

  const Empty := Timeline(None, [])

  function Project(entry: Entry): TimelineRecord {
    TimelineRecord(entry.core.sequence, entry.entryDigest, entry.core.recordedAt, entry.core.event)
  }

  function Projected(entries: seq<Entry>): (records: seq<TimelineRecord>)
    ensures |records| == |entries|
    ensures forall i :: 0 <= i < |records| ==> records[i] == Project(entries[i])
  {
    seq(|entries|, i requires 0 <= i < |entries| => Project(entries[i]))
  }

  function OffsetAfter(entry: Entry): Offset {
    Offset(entry.core.sequence, entry.entryDigest)
  }

  function OffsetOf(entries: seq<Entry>): Option<Offset> {
    if entries == [] then None else Some(OffsetAfter(entries[|entries| - 1]))
  }

  function OffsetDigest(offset: Option<Offset>): Option<Digest> {
    if offset.None? then None else Some(offset.value.entryDigest)
  }

  function Find(records: seq<TimelineRecord>, sequence: nat): (found: Option<TimelineRecord>)
    ensures found.Some? ==> found.value in records && found.value.sequence == sequence
    ensures found.None? ==> forall r :: r in records ==> r.sequence != sequence
  {
    if records == [] then None
    else if records[0].sequence == sequence then Some(records[0])
    else Find(records[1..], sequence)
  }

  /** The provider's atomic compare-and-apply. */
  function Apply(
    t: Timeline, expectedOffset: Option<Offset>, entry: Entry, record: TimelineRecord): (Timeline, ApplyResult) {
    var existing := Find(t.records, entry.core.sequence);
    if existing.Some? then
      (t, if existing.value.entryDigest == entry.entryDigest then ApplyResult.Duplicate else Conflict(t.offset))
    else if t.offset != expectedOffset then (t, Conflict(t.offset))
    else if entry.core.sequence != (if t.offset.None? then 0 else t.offset.value.sequence + 1) then (t, Conflict(t.offset))
    else (Timeline(Some(OffsetAfter(entry)), t.records + [record]), Applied)
  }

  /** A known sequence is answered as a duplicate or a conflict, and otherwise only the next entry at the
      expected offset is applied; every conflict reports the offset that is there. */
  lemma {:induction false} AppliesExactly(
    t: Timeline, expectedOffset: Option<Offset>, entry: Entry, record: TimelineRecord, known: bool)
    requires known <==> exists r :: r in t.records && r.sequence == entry.core.sequence
    ensures var (after, result) := Apply(t, expectedOffset, entry, record);
      && (result == Applied <==>
            !known && t.offset == expectedOffset
            && entry.core.sequence == if t.offset == None then 0 else t.offset.value.sequence + 1)
      && (result == ApplyResult.Duplicate ==>
            exists r :: r in t.records && r.sequence == entry.core.sequence && r.entryDigest == entry.entryDigest)
      && ((known && forall r :: r in t.records && r.sequence == entry.core.sequence ==>
                      r.entryDigest == entry.entryDigest) ==> result == ApplyResult.Duplicate)
      && (result.Conflict? ==> result.actualOffset == t.offset)
      && after == if result == Applied
                  then Timeline(Some(Offset(entry.core.sequence, entry.entryDigest)), t.records + [record]) else t
  {
    var existing := Find(t.records, entry.core.sequence);
    if existing.Some? {
      assert existing.value in t.records;
    }
  }

  /** The records are those of one hash-chained list from sequence 0, and the offset is its end. */
  ghost predicate ProjectionOf(t: Timeline, chain: seq<Entry>) {
    Linked(chain) && t.records == Projected(chain) && t.offset == OffsetOf(chain)
  }

  /** Each timeline record says what its entry says. */
  lemma {:induction false} RecordsSay(t: Timeline, chain: seq<Entry>, k: nat)
    requires ProjectionOf(t, chain) && k < |chain|
    ensures |t.records| == |chain|
    ensures var (record, entry) := (t.records[k], chain[k]);
      && record.sequence == k && record.entryDigest == entry.entryDigest
      && record.recordedAt == entry.core.recordedAt && record.event == entry.core.event
    ensures t.offset == Some(Offset(|chain| - 1, chain[|chain| - 1].entryDigest))
  {
  }

  lemma {:induction false} FindProjected(chain: seq<Entry>, sequence: nat)
    requires Linked(chain)
    ensures Find(Projected(chain), sequence) ==
      if sequence < |chain| then Some(Project(chain[sequence])) else None
  {
    if sequence < |chain| {
      assert Projected(chain)[sequence] in Projected(chain);
      assert Projected(chain)[sequence].sequence == sequence;
    }
    var found := Find(Projected(chain), sequence);
    if found.Some? {
      var i :| 0 <= i < |chain| && Projected(chain)[i] == found.value;
      assert chain[i].core.sequence == i;
    }
  }

  /** What one compare-and-apply by a worker does: it only ever sends an entry that names the
      digest of the offset it expects, whatever offset that is. */
  lemma {:induction false} ApplyKeepsProjection(t: Timeline, chain: seq<Entry>, expected: Option<Offset>, entry: Entry)
    requires ProjectionOf(t, chain) && entry.core.previousEntryDigest == OffsetDigest(expected)
    ensures var (after, result) := Apply(t, expected, entry, Project(entry));
      && ProjectionOf(after, if result == Applied then chain + [entry] else chain)
      && (result == Applied <==> expected == OffsetOf(chain) && Linked(chain + [entry]))
      && (result == ApplyResult.Duplicate <==> entry.core.sequence < |chain| && chain[entry.core.sequence].entryDigest == entry.entryDigest)
  {
    FindProjected(chain, entry.core.sequence);
    LinkedSnoc(chain, entry);
    assert Projected(chain + [entry]) == Projected(chain) + [Project(entry)];
  }

  lemma {:induction false} DigestsDistinct(chain: seq<Entry>, i: nat, j: nat)
    requires Linked(chain) && DigestsIdentify(Among(chain)) && i < |chain| && j < |chain|
    ensures chain[i].entryDigest == chain[j].entryDigest ==> i == j
  {
    assert chain[i] in Among(chain) && chain[j] in Among(chain);
  }

  /** A chain never meets one of its own entries again while it is extended at its end. */
  lemma {:induction false} NoDuplicateAtTheEnd(chain: seq<Entry>, entry: Entry)
    requires Linked(chain) && DigestsIdentify(Among(chain) + {entry})
    requires entry.core.previousEntryDigest == LastDigest(chain)
    ensures entry.core.sequence < |chain| ==> chain[entry.core.sequence].entryDigest != entry.entryDigest
  {
    var k := entry.core.sequence;
    if k < |chain| {
      assert chain[k] in Among(chain);
      if k > 0 {
        DigestsDistinct(chain, k - 1, |chain| - 1);
        assert chain[k].core.previousEntryDigest == Some(chain[k - 1].entryDigest);
      }
    }
  }

  /** Where a synchronization that met no digest collision is after n entries of its feed. */
  ghost predicate InStep(start: seq<Entry>, feed: seq<Entry>, n: nat, chain: seq<Entry>, offset: Option<Offset>)
    requires n <= |feed|
  {
    DigestsIdentify(Among(start + feed)) ==> chain == start + feed[..n] && offset == OffsetOf(chain)
  }

  lemma {:induction false} FeedPrefix(start: seq<Entry>, feed: seq<Entry>, n: nat)
    requires n < |feed|
    ensures start + feed[..n] + [feed[n]] == start + feed[..n + 1]
    ensures Linked(start + feed) ==> Linked(start + feed[..n + 1])
    ensures Among(start + feed[..n]) + {feed[n]} <= Among(start + feed)
  {
    var whole := start + feed;
    var k := |start| + n;
    assert whole[..k + 1] == start + feed[..n + 1];
    if Linked(whole) {
      LinkedPrefix(whole, k + 1);
    }
    assert whole[k] == feed[n] && forall i :: 0 <= i < k ==> whole[i] == (start + feed[..n])[i];
  }

  /** The next entry of a feed that starts where the chain ends is new, and extends the chain if
      the whole feed does. */
  lemma {:induction false} FeedStep(start: seq<Entry>, feed: seq<Entry>, n: nat, chain: seq<Entry>, entry: Entry)
    requires n < |feed| && entry == feed[n] && chain == start + feed[..n] && Linked(chain)
    requires DigestsIdentify(Among(start + feed))
    ensures chain + [entry] == start + feed[..n + 1]
    ensures Linked(start + feed) ==> Linked(chain + [entry]) && entry.core.previousEntryDigest == LastDigest(chain)
    ensures entry.core.previousEntryDigest == LastDigest(chain) ==>
      !(entry.core.sequence < |chain| && chain[entry.core.sequence].entryDigest == entry.entryDigest)
  {
    FeedPrefix(start, feed, n);
    LinkedSnoc(chain, entry);
    if entry.core.previousEntryDigest == LastDigest(chain) {
      NoDuplicateAtTheEnd(chain, entry);
    }
  }

  // ---- Any interleaving of workers ---------------------------------------------------

  /** One provider call of some `synchronize` or `rebuild`; `expected` is whatever offset that
      call last saw. */
  datatype Step = Send(expected: Option<Offset>, entry: Entry) | Reset

  function Next(t: Timeline, step: Step): Timeline {
    match step
    case Reset => Empty
    case Send(expected, entry) =>
      if entry.core.previousEntryDigest != OffsetDigest(expected) then t  // the worker throws
      else Apply(t, expected, entry, Project(entry)).0
  }

  function Run(steps: seq<Step>): Timeline {
    if steps == [] then Empty else Next(Run(steps[..|steps| - 1]), steps[|steps| - 1])
  }

  lemma {:induction false} StepProjects(t: Timeline, chain: seq<Entry>, step: Step) returns (after: seq<Entry>)
    requires ProjectionOf(t, chain)
    ensures ProjectionOf(Next(t, step), after)
  {
    after := chain;
    if step.Reset? {
      after := [];
    } else if step.entry.core.previousEntryDigest == OffsetDigest(step.expected) {
      ApplyKeepsProjection(t, chain, step.expected, step.entry);
      if Apply(t, step.expected, step.entry, Project(step.entry)).1 == Applied {
        after := chain + [step.entry];
      }
    }
  }

  /** Whatever journals were read, and however synchronizing and rebuilding workers interleaved,
      the records are always the projection of one hash-chained list from sequence 0. */
  lemma {:induction false} RunProjectsAChain(steps: seq<Step>)
    ensures exists chain :: ProjectionOf(Run(steps), chain)
  {
    if steps == [] {
      assert ProjectionOf(Run(steps), []);
    } else {
      var n := |steps| - 1;
      RunProjectsAChain(steps[..n]);
      var chain :| ProjectionOf(Run(steps[..n]), chain);
      var after := StepProjects(Run(steps[..n]), chain, steps[n]);
      assert ProjectionOf(Run(steps), after);
    }
  }

  // ---- One worker --------------------------------------------------------------------

  class MemoryAuditProjectionProvider {
    var offset: Option<Offset>
    var records: seq<TimelineRecord>

    ghost function Contents(): Timeline
      reads this
    {
      Timeline(offset, records)
    }

    constructor ()
      ensures Contents() == Empty
    {
      offset, records := None, [];
    }

    method CompareAndApply(expectedOffset: Option<Offset>, entry: Entry, record: TimelineRecord) returns (result: ApplyResult)
      modifies this
      ensures (Contents(), result) == Apply(old(Contents()), expectedOffset, entry, record)
    {
      var existing := Find(records, entry.core.sequence);
      if existing.Some? {
        return if existing.value.entryDigest == entry.entryDigest then ApplyResult.Duplicate else Conflict(offset);
      }
      if offset != expectedOffset {
        return Conflict(offset);
      }
      var expectedSequence := if offset.None? then 0 else offset.value.sequence + 1;
      if entry.core.sequence != expectedSequence {
        return Conflict(offset);
      }
      records := records + [record];
      offset := Some(Offset(entry.core.sequence, entry.entryDigest));
      return Applied;
    }

    method Reset()
      modifies this
      ensures Contents() == Empty
    {
      offset, records := None, [];
    }
  }

  datatype SyncResult = Synchronized(applied: nat, duplicates: nat) | ProjectionConflict

  class AuditProjectionWorker {
    const projections: MemoryAuditProjectionProvider

    /** The entries that the projection was built from. */
    ghost var chain: seq<Entry>

    ghost predicate Valid()
      reads this, projections
    {
      ProjectionOf(projections.Contents(), chain)
    }

    constructor ()
      ensures Valid() && fresh(projections) && chain == []
    {
      projections := new MemoryAuditProjectionProvider();
      chain := [];
    }

    /** One entry of a synchronization: the check against the local offset, and the apply. */
    method ApplyEntry(offset: Option<Offset>, entry: Entry) returns (result: ApplyResult)
      requires Valid() && entry.core.previousEntryDigest == OffsetDigest(offset)
      modifies this`chain, projections
      ensures Valid()
      ensures chain == if result == Applied then old(chain) + [entry] else old(chain)
      ensures result == Applied <==> offset == OffsetOf(old(chain)) && Linked(old(chain) + [entry])
      ensures result == ApplyResult.Duplicate <==>
        entry.core.sequence < |old(chain)| && old(chain)[entry.core.sequence].entryDigest == entry.entryDigest
    {
      ApplyKeepsProjection(projections.Contents(), chain, offset, entry);
      result := projections.CompareAndApply(offset, entry, Project(entry));
      if result.Applied? {
        chain := chain + [entry];
      }
    }

    /** One turn of the loop in `synchronize`: None when the entry does not link to the local
        offset, and otherwise what the provider answered. */
    method SynchronizeEntry(
      offset: Option<Offset>, entry: Entry, ghost start: seq<Entry>, ghost feed: seq<Entry>, ghost n: nat)
      returns (result: Option<ApplyResult>)
      requires Valid() && n < |feed| && entry == feed[n] && InStep(start, feed, n, chain, offset)
      modifies this`chain, projections
      ensures Valid() && old(chain) <= chain
      ensures result.None? || result.value.Conflict? ==>
        DigestsIdentify(Among(start + feed)) ==> !Linked(start + feed)
      ensures result.Some? && !result.value.Conflict? ==>
        && InStep(start, feed, n + 1, chain, Some(OffsetAfter(entry)))
        && (DigestsIdentify(Among(start + feed)) ==> result.value.Applied?)
    {
      if DigestsIdentify(Among(start + feed)) {
        FeedStep(start, feed, n, chain, entry);
      }
      if entry.core.previousEntryDigest != OffsetDigest(offset) {
        return None;
      }
      var answer := ApplyEntry(offset, entry);
      return Some(answer);
    }

    /** `feed` is what the journal yields after the current offset: it may belong to another
        history. As long as digests identify entries, a run succeeds exactly when the feed
        extends the chain that is already projected, and then all of it is applied. */
    method Synchronize(feed: seq<Entry>) returns (result: SyncResult)
      requires Valid()
      modifies this`chain, projections
      ensures Valid() && old(chain) <= chain
      ensures DigestsIdentify(Among(old(chain) + feed)) ==>
        (result.Synchronized? <==> Linked(old(chain) + feed))
      ensures DigestsIdentify(Among(old(chain) + feed)) && result.Synchronized? ==>
        chain == old(chain) + feed && result == Synchronized(|feed|, 0)
    {
      var offset := projections.offset;
      var applied, duplicates := 0, 0;
      assert old(chain) + feed[..0] == old(chain);
      for n := 0 to |feed|
        invariant Valid() && applied + duplicates == n && old(chain) <= chain
        invariant InStep(old(chain), feed, n, chain, offset)
        invariant DigestsIdentify(Among(old(chain) + feed)) ==> applied == n
      {
        var entry := feed[n];
        var result := SynchronizeEntry(offset, entry, old(chain), feed, n);
        if result.None? || result.value.Conflict? {
          return ProjectionConflict;
        }
        if result.value.Applied? {
          applied := applied + 1;
        } else {
          duplicates := duplicates + 1;
        }
        offset := Some(Offset(entry.core.sequence, entry.entryDigest));
      }
      assert old(chain) + feed[..|feed|] == old(chain) + feed;
      return Synchronized(applied, duplicates);
    }

    /** `rebuild`: forgets everything and projects what the journal yields from the start. */
    method Rebuild(feed: seq<Entry>) returns (result: SyncResult)
      requires Valid()
      modifies this`chain, projections
      ensures Valid()
      ensures DigestsIdentify(Among(feed)) ==> (result.Synchronized? <==> Linked(feed))
      ensures DigestsIdentify(Among(feed)) && result.Synchronized? ==>
        chain == feed && result == Synchronized(|feed|, 0)
    {
      projections.Reset();
      chain := [];
      assert [] + feed == feed;
      result := Synchronize(feed);
    }

    /** The first journal entry past `sequence - 1`, when that is the entry at `sequence`. */
    method EntryAt(journal: seq<Entry>, sequence: nat) returns (entry: Option<Entry>)
      ensures var first := FirstFrom(journal, sequence);
        entry == if first.Some? && first.value.core.sequence == sequence then first else None
      ensures Linked(journal) ==> entry == if sequence < |journal| then Some(journal[sequence]) else None
    {
      if Linked(journal) {
        FirstFromLinked(journal, sequence, 0);
      }
      assert journal[0..] == journal;
      for n := 0 to |journal|
        invariant FirstFrom(journal, sequence) == FirstFrom(journal[n..], sequence)
      {
        assert journal[n..][0] == journal[n] && journal[n..][1..] == journal[n + 1..];
        if journal[n].core.sequence >= sequence {
          return if journal[n].core.sequence == sequence then Some(journal[n]) else None;
        }
      }
      return None;
    }

    /** `reconcile` against a snapshot of the journal: if its entries link, it says exactly how the
        projected chain relates to the journal, not only how their ends compare. Of any journal it says
        whether it ends in the last projected entry, or goes on from there. */
    method Reconcile(journal: seq<Entry>) returns (status: Status)
      requires Valid()
      ensures status == EndStatus(projections.offset, journal)
      ensures Linked(journal) && DigestsIdentify(Among(chain) + Among(journal)) ==> status == Relation(chain, journal)
      ensures chain == [] ==> status == if journal == [] then EmptyLedger else Pending
      ensures chain != [] && journal == [] ==> status == GapDetected
      ensures chain != [] && journal != [] && DigestsIdentify(Among(chain) + Among(journal)) ==>
        var (last, end) := (chain[|chain| - 1], journal[|journal| - 1]);
        && (status == Verified <==> end == last)
        && (status == Pending <==>
              last.core.sequence < end.core.sequence && FirstFrom(journal, last.core.sequence) == Some(last))
        && status != EmptyLedger
    {
      EndStatusMeans(chain, journal, EndStatus(projections.offset, journal));
      var journalHead := OffsetOf(journal);
      var projectionHead := projections.offset;
      if journalHead.None? && projectionHead.None? {
        return EmptyLedger;
      }
      if journalHead.Some? && projectionHead.None? {
        return Pending;
      }
      if journalHead.None? || projectionHead.None? {
        return GapDetected;
      }
      if journalHead.value.sequence == projectionHead.value.sequence {
        return if journalHead.value.entryDigest == projectionHead.value.entryDigest then Verified else GapDetected;
      }
      if projectionHead.value.sequence < journalHead.value.sequence {
        var journalEntry := EntryAt(journal, projectionHead.value.sequence);
        return if journalEntry.Some? && journalEntry.value.entryDigest == projectionHead.value.entryDigest
               then Pending else GapDetected;
      }
      return GapDetected;
    }
  }

  /** The first entry numbered at least `sequence`. */
  function FirstFrom(journal: seq<Entry>, sequence: nat): Option<Entry> {
    if journal == [] then None
    else if journal[0].core.sequence >= sequence then Some(journal[0])
    else FirstFrom(journal[1..], sequence)
  }

  lemma {:induction false} FirstFromIsThere(journal: seq<Entry>, sequence: nat)
    ensures FirstFrom(journal, sequence).Some? ==> FirstFrom(journal, sequence).value in Among(journal)
  {
    if journal != [] {
      FirstFromIsThere(journal[1..], sequence);
      assert forall k :: 0 <= k < |journal[1..]| ==> journal[1..][k] == journal[k + 1];
      assert journal[0] in Among(journal);
    }
  }

  /** Where digests identify entries, comparing them is comparing the entries. */
  lemma {:induction false} EndsByDigest(chain: seq<Entry>, journal: seq<Entry>)
    requires chain != [] && journal != []
    ensures DigestsIdentify(Among(chain) + Among(journal)) ==>
      var (last, end) := (chain[|chain| - 1], journal[|journal| - 1]);
      var first := FirstFrom(journal, last.core.sequence);
      && (end.entryDigest == last.entryDigest <==> end == last)
      && (first.Some? && first.value.entryDigest == last.entryDigest <==> first == Some(last))
  {
    var last := chain[|chain| - 1];
    FirstFromIsThere(journal, last.core.sequence);
    assert last in Among(chain) && journal[|journal| - 1] in Among(journal);
  }

  lemma {:induction false} FirstFromLinked(journal: seq<Entry>, sequence: nat, n: nat)
    requires Linked(journal) && n <= |journal| && n <= sequence
    ensures FirstFrom(journal[n..], sequence) == if sequence < |journal| then Some(journal[sequence]) else None
    decreases |journal| - n
  {
    if n < |journal| {
      assert journal[n..][0] == journal[n] && journal[n..][1..] == journal[n + 1..];
      if n < sequence {
        FirstFromLinked(journal, sequence, n + 1);
      }
    }
  }

  datatype Status = EmptyLedger | Pending | Verified | GapDetected

  /** How a projected chain stands to a journal: both empty, equal, a proper prefix, or anything else. */
  function Relation(chain: seq<Entry>, journal: seq<Entry>): Status {
    if chain == journal then (if chain == [] then EmptyLedger else Verified)
    else if chain < journal then Pending
    else GapDetected
  }

  /** What comparing the two ends, and the projected end with its place in the journal, shows. */
  function EndStatus(projected: Option<Offset>, journal: seq<Entry>): Status {
    var end := OffsetOf(journal);
    if projected.None? then (if end.None? then EmptyLedger else Pending)
    else if end == projected then Verified
    else if end.Some? && projected.value.sequence < end.value.sequence
      && var first := FirstFrom(journal, projected.value.sequence);
         first.Some? && OffsetAfter(first.value) == projected.value
    then Pending
    else GapDetected
  }

  /** A chain is a prefix of a journal exactly when the journal holds its last digest at its end. */
  lemma {:induction false} RelationByDigest(chain: seq<Entry>, journal: seq<Entry>)
    requires Linked(chain) && Linked(journal) && chain != []
    ensures DigestsIdentify(Among(chain) + Among(journal)) ==>
      (chain <= journal <==>
        |chain| <= |journal| && journal[|chain| - 1].entryDigest == chain[|chain| - 1].entryDigest)
  {
    var k := |chain| - 1;
    if DigestsIdentify(Among(chain) + Among(journal)) && |chain| <= |journal|
       && journal[k].entryDigest == chain[k].entryDigest {
      SameDigestSamePrefix(chain, journal, k);
      assert chain[..k + 1] == chain;
    }
  }

  /** Of a projected chain it says all that Reconcile promises. */
  lemma {:induction false} EndStatusMeans(chain: seq<Entry>, journal: seq<Entry>, status: Status)
    requires Linked(chain) && status == EndStatus(OffsetOf(chain), journal)
    ensures Linked(journal) && DigestsIdentify(Among(chain) + Among(journal)) ==> status == Relation(chain, journal)
    ensures chain == [] ==> status == if journal == [] then EmptyLedger else Pending
    ensures chain != [] && journal == [] ==> status == GapDetected
    ensures chain != [] && journal != [] && DigestsIdentify(Among(chain) + Among(journal)) ==>
      var (last, end) := (chain[|chain| - 1], journal[|journal| - 1]);
      && (status == Verified <==> end == last)
      && (status == Pending <==>
            last.core.sequence < end.core.sequence && FirstFrom(journal, last.core.sequence) == Some(last))
      && status != EmptyLedger
  {
    if chain != [] && journal != [] {
      if Linked(journal) {
        RelationByDigest(chain, journal);
        FirstFromLinked(journal, chain[|chain| - 1].core.sequence, 0);
        assert journal[0..] == journal;
      }
      EndsByDigest(chain, journal);
    }
  }
}
