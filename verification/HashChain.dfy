/** Lists of entries that link back to sequence 0 by digest. */
module HashChain {
  import opened Wrappers
  import opened Hashing
  import opened Journal

  /** Entries 0, 1, 2, ..., each naming the digest of the one before. */
  ghost predicate Linked(entries: seq<Entry>) {
    && (forall i :: 0 <= i < |entries| ==> entries[i].core.sequence == i)
    && (entries != [] ==> entries[0].core.previousEntryDigest == None)
    && (forall i, j :: 0 <= i < j < |entries| && j == i + 1 ==>
          entries[j].core.previousEntryDigest == Some(entries[i].entryDigest))
  }

  function LastDigest(entries: seq<Entry>): Option<Digest> {
    if entries == [] then None else Some(entries[|entries| - 1].entryDigest)
  }

  lemma {:induction false} LinkedSnoc(entries: seq<Entry>, entry: Entry)
    requires Linked(entries)
    ensures Linked(entries + [entry]) <==>
      entry.core.sequence == |entries| && entry.core.previousEntryDigest == LastDigest(entries)
  {
    var all := entries + [entry];
    assert all[|entries|] == entry;
    assert forall i :: 0 <= i < |entries| ==> all[i] == entries[i];
    if Linked(all) && entries != [] {
      assert all[|entries| - 1] == entries[|entries| - 1];
    }
  }

  lemma {:induction false} LinkedPrefix(entries: seq<Entry>, n: nat)
    requires Linked(entries) && n <= |entries|
    ensures Linked(entries[..n])
  {
  }

  /** A digest stands for one entry: no two of these entries differ under one digest. */
  ghost predicate DigestsIdentify(entries: set<Entry>) {
    forall a, b :: a in entries && b in entries && a.entryDigest == b.entryDigest ==> a == b
  }

  function Among(entries: seq<Entry>): set<Entry> {
    set i | 0 <= i < |entries| :: entries[i]
  }

  lemma {:induction false} SameEntry(a: seq<Entry>, b: seq<Entry>, k: nat)
    requires DigestsIdentify(Among(a) + Among(b)) && k < |a| && k < |b| && a[k].entryDigest == b[k].entryDigest
    ensures a[k] == b[k]
  {
    assert a[k] in Among(a) && b[k] in Among(b);
  }

  lemma {:induction false} LinkBefore(entries: seq<Entry>, k: nat)
    requires Linked(entries) && 0 < k < |entries|
    ensures entries[k].core.previousEntryDigest == Some(entries[k - 1].entryDigest)
  {
  }

  /** Where two chains agree on one digest, they agree on everything up to it. */
  lemma {:induction false} SameDigestSamePrefix(a: seq<Entry>, b: seq<Entry>, k: nat)
    requires Linked(a) && Linked(b) && DigestsIdentify(Among(a) + Among(b))
    requires k < |a| && k < |b| && a[k].entryDigest == b[k].entryDigest
    ensures a[..k + 1] == b[..k + 1]
  {
    SameEntry(a, b, k);
    if k > 0 {
      LinkBefore(a, k);
      LinkBefore(b, k);
      SameDigestSamePrefix(a, b, k - 1);
    }
    assert a[..k + 1] == a[..k] + [a[k]] && b[..k + 1] == b[..k] + [b[k]];
  }

  ghost predicate CoresDistinct(digests: Digests, entries: seq<Entry>) {
    forall a, b :: (a in entries && b in entries && digests.entry(a.core) == digests.entry(b.core)) ==> a.core == b.core
  }

  /** The ledger that recorders build is such a chain, and as long as no two of its cores collide
      under the entry digest, its digests identify its entries. */
  lemma {:induction false} LedgerIsLinked(digests: Digests, records: seq<Record>)
    requires Chained(digests, records)
    ensures Linked(Entries(records))
    ensures CoresDistinct(digests, Entries(records)) ==> DigestsIdentify(Among(Entries(records)))
  {
    forall a | a in Among(Entries(records))
      ensures a in Entries(records) && a.entryDigest == digests.entry(a.core) && a.eventDigest == digests.event(a.core.event)
    {
      var i :| 0 <= i < |records| && Entries(records)[i] == a;
      assert Placed(digests, records[i].entry, i);
    }
    assert forall i :: 0 <= i < |records| ==> Placed(digests, records[i].entry, i);
  }
}
