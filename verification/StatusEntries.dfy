/** Status list entries of credentials, and the bits they name: src/delegation/delegation-status-entry.ts over
    the lists of src/delegation/statuslist-manager.ts. */
module StatusEntries {
  import opened Wrappers
  import opened Digits
  import Bitstring
  import SL = StatusList

  /** A credential's status entry; its other members are only ever compared. */
  datatype StatusEntry = StatusEntry(list: string, index: string, purpose: SL.Purpose, others: map<string, string>)

  /** The stored status lists by id. */
  type Lists = map<string, SL.StatusList>

  function ListOf(lists: Lists, entry: StatusEntry): Option<SL.StatusList> {
    if entry.list in lists then Some(lists[entry.list]) else None
  }

  // ---- Bits --------------------------------------------------------------------------

  /** `checkStatus`; None is a throw. */
  function CheckBit(lists: Lists, entry: StatusEntry): Option<bool> {
    SL.CheckStatus(ListOf(lists, entry), entry.purpose, entry.index)
  }

  /** The lists after `updateStatus`; None is a throw. */
  function WriteBit(lists: Lists, entry: StatusEntry, value: bool): Option<Lists> {
    var written := SL.Updated(ListOf(lists, entry), entry.index, value);
    if written.None? then None else Some(lists[entry.list := written.value])
  }

  /** Both entries name one bit, however their indices are spelled. */
  predicate SameBit(e: StatusEntry, f: StatusEntry) {
    && e.list == f.list
    && SL.ParseStatusListIndex(e.index).Some?
    && SL.ParseStatusListIndex(e.index) == SL.ParseStatusListIndex(f.index)
  }

  /** The named bit is stored and set, whether or not a check with the entry's purpose can read it. */
  predicate BitSet(lists: Lists, entry: StatusEntry) {
    var index := SL.ParseStatusListIndex(entry.index);
    && entry.list in lists && index.Some?
    && index.value < 8 * |lists[entry.list].bits|
    && Bitstring.View(lists[entry.list].bits)[index.value]
  }

  lemma {:induction false} CheckReadsBit(lists: Lists, entry: StatusEntry)
    ensures CheckBit(lists, entry).Some? ==> (CheckBit(lists, entry).value <==> BitSet(lists, entry))
  {
  }

  /** A write sets or clears the bit for every spelling of it, and no other bit of any list. */
  lemma {:induction false} WriteBitEffect(lists: Lists, entry: StatusEntry, value: bool, other: StatusEntry)
    requires WriteBit(lists, entry, value).Some?
    ensures BitSet(WriteBit(lists, entry, value).value, other)
        <==> if SameBit(entry, other) then value else BitSet(lists, other)
  {
    var before, after := lists[entry.list], WriteBit(lists, entry, value).value[entry.list];
    assert |Bitstring.View(after.bits)| == |Bitstring.View(before.bits)|;
  }

  /** A write changes what a check reads, not whether it can read. */
  lemma {:induction false} StaysReadable(lists: Lists, entry: StatusEntry, value: bool, other: StatusEntry)
    requires WriteBit(lists, entry, value).Some?
    ensures CheckBit(WriteBit(lists, entry, value).value, other).Some? <==> CheckBit(lists, other).Some?
  {
    var before, after := lists[entry.list], WriteBit(lists, entry, value).value[entry.list];
    assert |Bitstring.View(after.bits)| == |Bitstring.View(before.bits)|;
  }

  /** The bit exists: its list is stored and can be decoded, and its index is one of the list's. */
  predicate Writable(lists: Lists, entry: StatusEntry) {
    && entry.list in lists && |lists[entry.list].bits| <= SL.MAX_STATUS_LIST_BYTES
    && var index := SL.ParseStatusListIndex(entry.index);
       index.Some? && index.value < 8 * |lists[entry.list].bits|
  }

  /** An update succeeds exactly when the bit exists, and then just as well after any other update. */
  lemma {:induction false} WritesSucceedExactly(lists: Lists, entry: StatusEntry, value: bool)
    ensures WriteBit(lists, entry, value).Some? <==> Writable(lists, entry)
  {
  }

  lemma {:induction false} StaysWritable(lists: Lists, entry: StatusEntry, value: bool, other: StatusEntry)
    requires WriteBit(lists, entry, value).Some?
    ensures Writable(WriteBit(lists, entry, value).value, other) <==> Writable(lists, other)
  {
    var before, after := lists[entry.list], WriteBit(lists, entry, value).value[entry.list];
    assert |Bitstring.View(after.bits)| == |Bitstring.View(before.bits)|;
  }

  /** A check answers exactly when the bit exists and its list has the entry's purpose. */
  lemma {:induction false} ChecksAnswerExactly(lists: Lists, entry: StatusEntry)
    ensures CheckBit(lists, entry).Some? <==> Writable(lists, entry) && lists[entry.list].purpose == entry.purpose
  {
  }

  lemma {:induction false} LeadingZeroValue(text: string)
    requires AllDigits(text)
    ensures AllDigits("0" + text) && NatOf("0" + text) == NatOf(text)
  {
    if text == [] {
      assert "0" + text == "0" && "0"[..0] == "";
    } else {
      var n := |text| - 1;
      LeadingZeroValue(text[..n]);
      assert ("0" + text)[..n + 1] == "0" + text[..n];
    }
  }

  /** One bit has many spellings: a leading zero leaves the index as it is. */
  lemma {:induction false} LeadingZeroSameBit(entry: StatusEntry)
    requires SL.ParseStatusListIndex(entry.index).Some?
    ensures SameBit(entry, entry.(index := "0" + entry.index))
  {
    LeadingZeroValue(entry.index);
  }

  // ---- References --------------------------------------------------------------------

  function LastHash(text: string): (at: Option<nat>)
    ensures at.Some? ==> at.value < |text|
  {
    if text == [] then None
    else
      var n := |text| - 1;
      if text[n] == '#' then Some(n) else LastHash(text[..n])
  }

  lemma {:induction false} LastHashMeans(text: string)
    ensures var at := LastHash(text);
      if at.Some? then at.value < |text| && text[at.value] == '#' && forall i :: at.value < i < |text| ==> text[i] != '#'
      else forall i :: 0 <= i < |text| ==> text[i] != '#'
  {
    if text != [] && text[|text| - 1] != '#' {
      LastHashMeans(text[..|text| - 1]);
    }
  }

  lemma {:induction false} LastHashIsLast(text: string, at: nat)
    requires at < |text| && text[at] == '#' && forall i :: at < i < |text| ==> text[i] != '#'
    ensures LastHash(text) == Some(at)
  {
    if at < |text| - 1 {
      LastHashIsLast(text[..|text| - 1], at);
    }
  }

  /** The characters that the dot of a regular expression does not match. */
  const LINE_BREAKS := {'\n', '\r', '\U{2028}', '\U{2029}'}

  /** `parseCredentialStatusId`: a `<list>#<index>` reference. An index past the safe integers, on
      which it throws, is kept as it is; every use of such an entry throws. */
  function ParseCredentialStatusId(text: string): Option<StatusEntry> {
    var hash := LastHash(text);
    if hash.None? then None
    else
      var (list, index) := (text[..hash.value], text[hash.value + 1..]);
      if list == [] || (exists i :: 0 <= i < |list| && list[i] in LINE_BREAKS) || index == [] || !AllDigits(index) then None
      else Some(StatusEntry(list, index, SL.Revocation, map["id" := text, "type" := "StatusList2021Entry"]))
  }

  /** A reference is the list before the last hash and the index after it. */
  lemma {:induction false} ReferenceReadsBack(list: string, index: string)
    requires list != [] && forall i :: 0 <= i < |list| ==> list[i] !in LINE_BREAKS
    requires index != [] && AllDigits(index)
    ensures var entry := ParseCredentialStatusId(list + "#" + index);
      entry.Some? && entry.value.list == list && entry.value.index == index && entry.value.purpose.Revocation?
  {
    var text := list + "#" + index;
    assert forall i :: |list| < i < |text| ==> text[i] == index[i - |list| - 1] && IsDigit(text[i]);
    LastHashIsLast(text, |list|);
    assert text[..|list|] == list && text[|list| + 1..] == index;
  }

  /** The id that `allocateStatusEntry` mints, a list and an index, reads back as that list and index. */
  lemma {:induction false} MintedIdReadsBack(list: string, n: nat)
    requires list != [] && forall i :: 0 <= i < |list| ==> list[i] !in LINE_BREAKS
    ensures var entry := ParseCredentialStatusId(list + "#" + TextOf(n));
      && entry.Some? && entry.value.list == list && entry.value.purpose.Revocation?
      && SL.ParseStatusListIndex(entry.value.index) == if n <= 9007199254740991 then Some(n) else None
  {
    ReferenceReadsBack(list, TextOf(n));
    SL.IndexReadsBack(n);
  }

  /** And nothing else is a reference. */
  lemma {:induction false} OnlyReferences(text: string)
    ensures ParseCredentialStatusId(text).Some? ==>
      var entry := ParseCredentialStatusId(text).value;
      && text == entry.list + "#" + entry.index
      && entry.list != [] && (forall i :: 0 <= i < |entry.list| ==> entry.list[i] !in LINE_BREAKS)
      && entry.index != [] && AllDigits(entry.index)
  {
    LastHashMeans(text);
    var hash := LastHash(text);
    if hash.Some? {
      assert text == text[..hash.value] + [text[hash.value]] + text[hash.value + 1..];
    }
  }
}
