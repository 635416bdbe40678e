/** The compare-and-append journal, src/audit/providers/memory-journal.ts, for one ledger epoch. */
module Journal {
  import opened Wrappers
  import opened Hashing

  /** What an entry records. `Genesis` is the event that a recorder's initialization writes. */
  datatype Event = Genesis(config: nat, occurredAt: int) | Produced(eventId: nat, content: nat)

  datatype EntryCore = EntryCore(sequence: nat, previousEntryDigest: Option<Digest>, recordedAt: int, event: Event)

  datatype Entry = Entry(core: EntryCore, eventDigest: Digest, entryDigest: Digest)

  datatype Head = Head(sequence: nat, entryDigest: Digest)

  /** An entry with the idempotency key it was appended under. */
  datatype Record = Record(key: Digest, entry: Entry)

  datatype AppendResult =
    | Appended(entry: Entry)
    | Duplicate(entry: Entry)
    | IdempotencyConflict(existing: Entry)
    | HeadConflict(actualHead: Option<Head>)

  function HeadOf(records: seq<Record>): Option<Head> {
    if records == [] then None
    else
      var last := records[|records| - 1].entry;
      Some(Head(last.core.sequence, last.entryDigest))
  }

  function Lookup(records: seq<Record>, key: Digest): (found: Option<Entry>)
    ensures found.Some? ==> Record(key, found.value) in records
    ensures found.None? ==> forall r :: r in records ==> r.key != key
  {
    if records == [] then None
    else if records[|records| - 1].key == key then Some(records[|records| - 1].entry)
    else Lookup(records[..|records| - 1], key)
  }

  /** The atomic append: identity first, then the head, and only then the new record. */
  function AppendTo(records: seq<Record>, expectedHead: Option<Head>, entry: Entry, key: Digest)
    : (seq<Record>, AppendResult)
  {
    var existing := Lookup(records, key);
    if existing.Some? then
      (records, if existing.value.eventDigest == entry.eventDigest
                then Duplicate(existing.value) else IdempotencyConflict(existing.value))
    else if expectedHead != HeadOf(records) then (records, HeadConflict(HeadOf(records)))
    else (records + [Record(key, entry)], Appended(entry))
  }

  function Entries(records: seq<Record>): (entries: seq<Entry>)
    ensures |entries| == |records|
    ensures forall i :: 0 <= i < |entries| ==> entries[i] == records[i].entry
  {
    seq(|records|, i requires 0 <= i < |records| => records[i].entry)
  }

  /** The idempotency index that belongs to these records. */
  function KeyMap(records: seq<Record>): map<Digest, Entry> {
    if records == [] then map[]
    else
      var last := records[|records| - 1];
      KeyMap(records[..|records| - 1])[last.key := last.entry]
  }

  lemma {:induction false} KeyMapIsLookup(records: seq<Record>, key: Digest)
    ensures key in KeyMap(records) <==> Lookup(records, key).Some?
    ensures key in KeyMap(records) ==> KeyMap(records)[key] == Lookup(records, key).value
  {
    if records != [] {
      KeyMapIsLookup(records[..|records| - 1], key);
    }
  }

  class MemoryAuditJournal {
    var entries: seq<Entry>
    var entriesByIdempotency: map<Digest, Entry>
    var head: Option<Head>

    /** What was appended, in order, with its keys. */
    ghost var records: seq<Record>

    ghost predicate Valid()
      reads this
    {
      && entries == Entries(records)
      && entriesByIdempotency == KeyMap(records)
      && head == HeadOf(records)
    }

    constructor ()
      ensures Valid() && records == []
    {
      entries, entriesByIdempotency, head, records := [], map[], None, [];
    }

    method GetHead() returns (result: Option<Head>)
      requires Valid()
      ensures result == HeadOf(records)
    {
      return head;
    }

    method GetByIdempotencyKey(key: Digest) returns (result: Option<Entry>)
      requires Valid()
      ensures result == Lookup(records, key)
    {
      KeyMapIsLookup(records, key);
      return if key in entriesByIdempotency then Some(entriesByIdempotency[key]) else None;
    }

    method CompareAndAppend(expectedHead: Option<Head>, entry: Entry, key: Digest) returns (result: AppendResult)
      requires Valid()
      modifies this
      ensures Valid()
      ensures (records, result) == AppendTo(old(records), expectedHead, entry, key)
    {
      KeyMapIsLookup(records, key);
      if key in entriesByIdempotency {
        var existing := entriesByIdempotency[key];
        return if existing.eventDigest == entry.eventDigest then Duplicate(existing) else IdempotencyConflict(existing);
      }
      if expectedHead != head {
        return HeadConflict(head);
      }
      assert (records + [Record(key, entry)])[..|records|] == records;
      entries := entries + [entry];
      entriesByIdempotency := entriesByIdempotency[key := entry];
      head := Some(Head(entry.core.sequence, entry.entryDigest));
      records := records + [Record(key, entry)];
      return Appended(entry);
    }
  }

  // ---- What a correct ledger looks like ----------------------------------------------

  /** How entries and events are digested. */
  datatype Digests = Digests(entry: EntryCore -> Digest, event: Event -> Digest)

  /** An entry that says what it should at its position, apart from the link to its predecessor. */
  ghost predicate Placed(digests: Digests, entry: Entry, sequence: nat) {
    && entry.core.sequence == sequence
    && entry.entryDigest == digests.entry(entry.core)
    && entry.eventDigest == digests.event(entry.core.event)
    && (entry.core.event.Genesis? <==> sequence == 0)
  }

  /** One gapless hash chain from sequence 0, with the genesis entry there and nowhere else. */
  ghost predicate Chained(digests: Digests, records: seq<Record>) {
    && (forall i :: 0 <= i < |records| ==> Placed(digests, records[i].entry, i))
    && (records != [] ==> records[0].entry.core.previousEntryDigest == None)
    && (forall i, j :: 0 <= i < j < |records| && j == i + 1 ==>
          records[j].entry.core.previousEntryDigest == Some(records[i].entry.entryDigest))
  }

  /** At most one entry per event identity. */
  ghost predicate UniqueKeys(records: seq<Record>) {
    forall i, j :: 0 <= i < |records| && 0 <= j < |records| && records[i].key == records[j].key ==> i == j
  }

  ghost predicate WellFormed(digests: Digests, records: seq<Record>) {
    Chained(digests, records) && UniqueKeys(records)
  }

  function DigestOf(head: Option<Head>): Option<Digest> {
    if head.None? then None else Some(head.value.entryDigest)
  }

  /** A successful append extends a well-formed ledger when the entry was built for its head. */
  lemma {:induction false} AppendKeepsChain(digests: Digests, records: seq<Record>, entry: Entry, key: Digest)
    requires WellFormed(digests, records) && Lookup(records, key).None?
    requires Placed(digests, entry, |records|)
    requires entry.core.previousEntryDigest == DigestOf(HeadOf(records))
    ensures WellFormed(digests, records + [Record(key, entry)])
  {
    var all := records + [Record(key, entry)];
    assert forall i :: 0 <= i < |records| ==> all[i] == records[i] && records[i] in records;
  }

  lemma {:induction false} LookupUnique(records: seq<Record>, key: Digest, entry: Entry)
    requires UniqueKeys(records) && Record(key, entry) in records
    ensures Lookup(records, key) == Some(entry)
  {
  }

  /** Identity decides first, then the head: what a compare-and-append answers and leaves. */
  lemma {:induction false} AppendsExactly(records: seq<Record>, expectedHead: Option<Head>, entry: Entry, key: Digest)
    requires UniqueKeys(records)
    ensures var (after, result) := AppendTo(records, expectedHead, entry, key);
      && (result.Appended? <==> (forall r :: r in records ==> r.key != key) && expectedHead == HeadOf(records))
      && (result.HeadConflict? <==> (forall r :: r in records ==> r.key != key) && expectedHead != HeadOf(records))
      && (forall e :: result == Duplicate(e) <==> Record(key, e) in records && e.eventDigest == entry.eventDigest)
      && (forall e :: result == IdempotencyConflict(e) <==> Record(key, e) in records && e.eventDigest != entry.eventDigest)
      && (result.Appended? ==> result.entry == entry && after == records + [Record(key, entry)])
      && (result.HeadConflict? ==> result.actualHead == HeadOf(records))
      && (!result.Appended? ==> after == records)
  {
    forall e | Record(key, e) in records
      ensures Lookup(records, key) == Some(e)
    {
      LookupUnique(records, key, e);
    }
  }
}
