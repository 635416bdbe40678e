/** Cascading revocation, src/delegation/cascading-revocation.ts, over a delegation graph and the
    status lists its nodes point into. */
module CascadingRevocation {
  import opened Wrappers
  import opened StatusEntries
  import opened DelegationGraph
  import Digits
  import SL = StatusList

  /** The graph, of any shape, and the stored status lists. */
  datatype State = State(nodes: Graph, lists: Lists)

  /** `nodeStatusEntry`: the structured entry, or else the legacy reference. */
  function NodeStatusEntry(node: Node): Option<StatusEntry> {
    if node.credentialStatus.Some? then node.credentialStatus
    else if node.credentialStatusId.Some? then ParseCredentialStatusId(node.credentialStatusId.value)
    else None
  }

  /** A structured entry is used as it is, and without one the reference that the minting of entry `n`
      of a list stored names that entry. */
  lemma {:induction false} EntryOfNode(node: Node, list: string, n: nat)
    requires list != [] && forall i :: 0 <= i < |list| ==> list[i] !in LINE_BREAKS
    ensures node.credentialStatus.Some? ==> NodeStatusEntry(node) == node.credentialStatus
    ensures node.credentialStatus.None? && node.credentialStatusId.None? ==> NodeStatusEntry(node) == None
    ensures node.credentialStatus.None? && node.credentialStatusId == Some(list + "#" + Digits.TextOf(n)) ==>
      && var entry := NodeStatusEntry(node);
      && entry.Some? && entry.value.list == list
      && SL.ParseStatusListIndex(entry.value.index) == if n <= 9007199254740991 then Some(n) else None
  {
    MintedIdReadsBack(list, n);
  }

  // ---- Reading -----------------------------------------------------------------------

  datatype Reading = Live | Revoked(at: Id) | Unreadable

  /** `isRevoked` over a chain, root first; it throws at a bit that cannot be checked. */
  function ReadChain(s: State, ids: seq<Id>): Reading
    requires forall k :: 0 <= k < |ids| ==> ids[k] in s.nodes
  {
    if ids == [] then Live
    else
      var node := s.nodes[ids[0]];
      var entry := NodeStatusEntry(node);
      if node.revoked then Revoked(node.id)
      else if entry.None? then ReadChain(s, ids[1..])
      else
        match CheckBit(s.lists, entry.value)
        case None => Unreadable
        case Some(bit) => if bit then Revoked(node.id) else ReadChain(s, ids[1..])
  }

  /** The node has a status entry whose bit is set. */
  predicate OwnBit(s: State, id: Id) {
    && id in s.nodes
    && var entry := NodeStatusEntry(s.nodes[id]);
       entry.Some? && BitSet(s.lists, entry.value)
  }

  /** The node itself is recorded as revoked, by mark or by bit. */
  predicate OwnRevoked(s: State, id: Id) {
    id in s.nodes && (s.nodes[id].revoked || OwnBit(s, id))
  }

  /** The node has no status entry, or one whose bit can be checked. */
  predicate Readable(s: State, id: Id)
    requires id in s.nodes
  {
    var entry := NodeStatusEntry(s.nodes[id]);
    entry.Some? ==> CheckBit(s.lists, entry.value).Some?
  }

  /** A chain reads live exactly when every node on it is readable and none is recorded revoked. */
  lemma {:induction false} LiveMeansNoneRevoked(s: State, ids: seq<Id>)
    requires forall k :: 0 <= k < |ids| ==> ids[k] in s.nodes
    ensures ReadChain(s, ids) == Live <==>
      forall k :: 0 <= k < |ids| ==> !OwnRevoked(s, ids[k]) && Readable(s, ids[k])
  {
    if ids != [] {
      var entry := NodeStatusEntry(s.nodes[ids[0]]);
      if entry.Some? {
        CheckReadsBit(s.lists, entry.value);
      }
      LiveMeansNoneRevoked(s, ids[1..]);
      assert forall k :: 0 <= k < |ids| ==> ids[k] == if k == 0 then ids[0] else ids[1..][k - 1];
      assert forall k :: 0 <= k < |ids[1..]| ==> ids[1..][k] == ids[k + 1];
    }
  }

  /** The first node from the root that is revoked or cannot be checked decides: a marked node and one
      whose bit reads as set are reported, and a bit that cannot be checked is an error. */
  lemma {:induction false} FirstDecides(s: State, ids: seq<Id>, k: nat)
    requires (forall j :: 0 <= j < |ids| ==> ids[j] in s.nodes) && k < |ids|
    requires forall j :: 0 <= j < k ==> !OwnRevoked(s, ids[j]) && Readable(s, ids[j])
    requires OwnRevoked(s, ids[k]) || !Readable(s, ids[k])
    ensures ReadChain(s, ids) ==
      if s.nodes[ids[k]].revoked || Readable(s, ids[k]) then Revoked(s.nodes[ids[k]].id) else Unreadable
  {
    var entry := NodeStatusEntry(s.nodes[ids[0]]);
    if entry.Some? {
      CheckReadsBit(s.lists, entry.value);
    }
    if k > 0 {
      FirstDecides(s, ids[1..], k - 1);
    }
  }

  // ---- Writing -----------------------------------------------------------------------

  /** How the two writes and the hook of one node's revocation go. */
  datatype Fault = Fault(mark: Write, status: Write, hookThrows: bool)

  /** The state after `setRevoked`; a provider may drop the `revoked` field. */
  function Mark(persists: bool, s: State, id: Id, revoked: bool, write: Write): (after: State)
    requires id in s.nodes
    ensures after.lists == s.lists
  {
    if TakesEffect(write) then s.(nodes := SetMark(s.nodes, id, revoked, persists)) else s
  }

  /** The state after `updateStatus`, and whether it returned. */
  function WriteStatus(s: State, entry: StatusEntry, value: bool, write: Write): (after: (State, bool))
    ensures after.0.nodes == s.nodes
  {
    var lists := WriteBit(s.lists, entry, value);
    if lists.None? then (s, false) else (if TakesEffect(write) then s.(lists := lists.value) else s, write.Succeeds?)
  }

  /** `revokeNode` and its hook: the state it leaves and whether it went through. */
  function AfterRevokeNode(persists: bool, s: State, id: Id, dryRun: bool, fault: Fault): (State, bool)
    requires id in s.nodes
  {
    if dryRun then (s, !fault.hookThrows) else
    var marked := Mark(persists, s, id, true, fault.mark);
    var entry := NodeStatusEntry(s.nodes[id]);
    if fault.mark.Throws? then (marked, false)
    else if entry.None? then (marked, persists && !fault.hookThrows)
    else
      var (written, ok) := WriteStatus(marked, entry.value, true, fault.status);
      (written, ok && !fault.hookThrows)
  }

  predicate Stored(g: Graph, ids: seq<Id>) {
    forall k :: 0 <= k < |ids| ==> ids[k] in g
  }

  /** The cascade: node after node, until one fails. */
  function RevokeAll(persists: bool, s: State, ids: seq<Id>, dryRun: bool, faults: Id -> Fault): (State, bool)
    requires Stored(s.nodes, ids)
    decreases |ids|
  {
    if ids == [] then (s, true)
    else
      var (next, ok) := AfterRevokeNode(persists, s, ids[0], dryRun, faults(ids[0]));
      if !ok then (next, false) else RevokeAll(persists, next, ids[1..], dryRun, faults)
  }

  /** `revokeDelegation`: the node, then what the search finds below it, in that order. */
  function Revoke(persists: bool, s: State, id: Id, dryRun: bool, tooDeep: bool, faults: Id -> Fault): (State, bool) {
    if id !in s.nodes || tooDeep then (s, false)
    else RevokeAll(persists, s, [id] + Found(s.nodes, id), dryRun, faults)
  }

  /** `restoreDelegation`: the status bit first, the mark last. */
  function Restore(persists: bool, s: State, id: Id, status: Write, mark: Write): (State, bool) {
    if id !in s.nodes then (s, false)
    else
      var entry := NodeStatusEntry(s.nodes[id]);
      var (cleared, ok) := if entry.Some? then WriteStatus(s, entry.value, false, status) else (s, true);
      if !ok then (cleared, false) else (Mark(persists, cleared, id, false, mark), mark.Succeeds?)
  }

  // ---- Cascades ----------------------------------------------------------------------

  /** The same nodes hang in the same places, with the same status entries. */
  ghost predicate SameTree(s: State, t: State) {
    && SameShape(s.nodes, t.nodes)
    && forall id :: id in s.nodes ==>
         && t.nodes[id].credentialStatus == s.nodes[id].credentialStatus
         && t.nodes[id].credentialStatusId == s.nodes[id].credentialStatusId
  }

  /** A cascade only ever adds marks and bits. */
  ghost predicate OnlyRevokes(persists: bool, s: State, t: State) {
    && SameTree(s, t)
    && (forall id :: id in s.nodes && s.nodes[id].revoked && persists ==> t.nodes[id].revoked)
    && (forall e {:trigger BitSet(t.lists, e)} :: BitSet(s.lists, e) ==> BitSet(t.lists, e))
  }

  lemma {:induction false} OnlyRevokesTransitive(persists: bool, s: State, t: State, u: State)
    requires OnlyRevokes(persists, s, t) && OnlyRevokes(persists, t, u)
    ensures OnlyRevokes(persists, s, u)
  {
  }

  lemma {:induction false} MarkOnlyRevokes(persists: bool, s: State, id: Id, write: Write)
    requires id in s.nodes
    ensures OnlyRevokes(persists, s, Mark(persists, s, id, true, write))
  {
  }

  lemma {:induction false} StatusOnlyRevokes(persists: bool, s: State, entry: StatusEntry, write: Write)
    ensures var (t, ok) := WriteStatus(s, entry, true, write);
      OnlyRevokes(persists, s, t) && t.nodes == s.nodes && (ok ==> BitSet(t.lists, entry))
  {
    if WriteBit(s.lists, entry, true).Some? {
      forall e
        ensures BitSet(s.lists, e) ==> BitSet(WriteBit(s.lists, entry, true).value, e)
      {
        WriteBitEffect(s.lists, entry, true, e);
      }
      WriteBitEffect(s.lists, entry, true, entry);
    }
  }

  lemma {:induction false} RevokeNodeOnlyRevokes(persists: bool, s: State, id: Id, dryRun: bool, fault: Fault)
    requires id in s.nodes
    ensures var (t, ok) := AfterRevokeNode(persists, s, id, dryRun, fault);
      && OnlyRevokes(persists, s, t)
      && (dryRun ==> t == s)
      && (!dryRun && (ok || (persists && TakesEffect(fault.mark))) ==> Recorded(persists, t, id))
  {
    var marked := Mark(persists, s, id, true, fault.mark);
    MarkOnlyRevokes(persists, s, id, fault.mark);
    var entry := NodeStatusEntry(s.nodes[id]);
    assert NodeStatusEntry(marked.nodes[id]) == entry;
    if entry.Some? {
      var t := WriteStatus(marked, entry.value, true, fault.status).0;
      StatusOnlyRevokes(persists, marked, entry.value, fault.status);
      OnlyRevokesTransitive(persists, s, marked, t);
    }
  }

  predicate KeptMark(persists: bool, s: State, id: Id) {
    persists && id in s.nodes && s.nodes[id].revoked
  }

  /** Recorded in a way that lasts: by a mark that the provider keeps, or by a bit. */
  predicate Recorded(persists: bool, s: State, id: Id) {
    KeptMark(persists, s, id) || OwnBit(s, id)
  }

  lemma {:induction false} RecordedLasts(persists: bool, s: State, t: State, id: Id)
    requires OnlyRevokes(persists, s, t) && Recorded(persists, s, id)
    ensures Recorded(persists, t, id)
  {
  }

  /** However far a cascade gets, it only adds; a dry run changes nothing. */
  lemma {:induction false} RevokeAllOnlyRevokes(
    persists: bool, s: State, ids: seq<Id>, dryRun: bool, faults: Id -> Fault)
    requires Stored(s.nodes, ids)
    ensures var t := RevokeAll(persists, s, ids, dryRun, faults).0;
      OnlyRevokes(persists, s, t) && (dryRun ==> t == s)
    decreases |ids|
  {
    if ids != [] {
      var (next, ok) := AfterRevokeNode(persists, s, ids[0], dryRun, faults(ids[0]));
      RevokeNodeOnlyRevokes(persists, s, ids[0], dryRun, faults(ids[0]));
      if ok {
        RevokeAllOnlyRevokes(persists, next, ids[1..], dryRun, faults);
        OnlyRevokesTransitive(persists, s, next, RevokeAll(persists, next, ids[1..], dryRun, faults).0);
      }
    }
  }

  /** The node's status entry, if it has one, has its bit set. */
  predicate Published(s: State, id: Id) {
    id in s.nodes && (NodeStatusEntry(s.nodes[id]).Some? ==> OwnBit(s, id))
  }

  lemma {:induction false} RevokeNodePublishes(persists: bool, s: State, id: Id, fault: Fault)
    requires id in s.nodes
    ensures var (t, ok) := AfterRevokeNode(persists, s, id, false, fault);
      ok ==> Published(t, id) && (persists ==> KeptMark(persists, t, id))
  {
    var marked := Mark(persists, s, id, true, fault.mark);
    var entry := NodeStatusEntry(s.nodes[id]);
    assert NodeStatusEntry(marked.nodes[id]) == entry;
    if entry.Some? {
      StatusOnlyRevokes(persists, marked, entry.value, fault.status);
    }
  }

  lemma {:induction false} PublishedLasts(persists: bool, s: State, t: State, id: Id)
    requires OnlyRevokes(persists, s, t) && Published(s, id)
    ensures Published(t, id)
  {
  }

  lemma {:induction false} SameTreeKeepsEntry(s: State, t: State, id: Id)
    requires SameTree(s, t) && id in s.nodes
    ensures id in t.nodes && NodeStatusEntry(t.nodes[id]) == NodeStatusEntry(s.nodes[id])
  {
  }

  /** A cascade that completes has set the bit of every status entry on it, whether or not the
      provider keeps marks, and has marked every node if it does. */
  lemma {:induction false} RevokeAllPublishes(persists: bool, s: State, ids: seq<Id>, faults: Id -> Fault, x: Id)
    requires Stored(s.nodes, ids) && RevokeAll(persists, s, ids, false, faults).1 && x in ids
    ensures var t := RevokeAll(persists, s, ids, false, faults).0;
      Published(t, x) && (persists ==> KeptMark(persists, t, x))
    decreases |ids|
  {
    var next := AfterRevokeNode(persists, s, ids[0], false, faults(ids[0])).0;
    RevokeNodeOnlyRevokes(persists, s, ids[0], false, faults(ids[0]));
    if x == ids[0] {
      RevokeNodePublishes(persists, s, x, faults(x));
      RevokeAllOnlyRevokes(persists, next, ids[1..], false, faults);
      PublishedLasts(persists, next, RevokeAll(persists, next, ids[1..], false, faults).0, x);
    } else {
      RevokeAllPublishes(persists, next, ids[1..], faults, x);
    }
  }

  lemma {:induction false} RecordOutlivesCascade(persists: bool, s: State, ids: seq<Id>, faults: Id -> Fault, id: Id)
    requires Stored(s.nodes, ids) && Recorded(persists, s, id)
    ensures Recorded(persists, RevokeAll(persists, s, ids, false, faults).0, id)
  {
    RevokeAllOnlyRevokes(persists, s, ids, false, faults);
    RecordedLasts(persists, s, RevokeAll(persists, s, ids, false, faults).0, id);
  }

  /** However far a cascade gets, its first node is recorded if the provider keeps marks and the
      first of them was written; if it completes, every node of it is recorded. */
  lemma {:induction false} RevokeAllRecords(persists: bool, s: State, ids: seq<Id>, faults: Id -> Fault)
    requires Stored(s.nodes, ids)
    ensures var (t, ok) := RevokeAll(persists, s, ids, false, faults);
      && (ids != [] && persists && TakesEffect(faults(ids[0]).mark) ==> Recorded(persists, t, ids[0]))
      && (ok ==> forall k :: 0 <= k < |ids| ==> Recorded(persists, t, ids[k]))
    decreases |ids|
  {
    if ids != [] {
      var (next, ok) := AfterRevokeNode(persists, s, ids[0], false, faults(ids[0]));
      RevokeNodeOnlyRevokes(persists, s, ids[0], false, faults(ids[0]));
      if ok {
        var (t, all) := RevokeAll(persists, next, ids[1..], false, faults);
        RecordOutlivesCascade(persists, next, ids[1..], faults, ids[0]);
        RevokeAllRecords(persists, next, ids[1..], faults);
        forall k | all && 0 <= k < |ids|
          ensures Recorded(persists, t, ids[k])
        {
          assert k > 0 ==> ids[k] == ids[1..][k - 1];
        }
      }
    }
  }

  // ---- When a cascade completes ------------------------------------------------------

  /** Nothing stands in the way of revoking this one node. */
  predicate Unhindered(persists: bool, s: State, id: Id, dryRun: bool, fault: Fault)
    requires id in s.nodes
  {
    var entry := NodeStatusEntry(s.nodes[id]);
    && !fault.hookThrows
    && (dryRun ||
        (&& fault.mark.Succeeds?
         && (entry.None? ==> persists)
         && (entry.Some? ==> Writable(s.lists, entry.value) && fault.status.Succeeds?)))
  }

  lemma {:induction false} RevokeNodeExactly(persists: bool, s: State, id: Id, dryRun: bool, fault: Fault)
    requires id in s.nodes
    ensures AfterRevokeNode(persists, s, id, dryRun, fault).1 <==> Unhindered(persists, s, id, dryRun, fault)
  {
    var entry := NodeStatusEntry(s.nodes[id]);
    if entry.Some? {
      WritesSucceedExactly(s.lists, entry.value, true);
    }
  }

  lemma {:induction false} RevokingKeepsWritable(
    persists: bool, s: State, id: Id, dryRun: bool, fault: Fault, other: StatusEntry)
    requires id in s.nodes
    ensures Writable(AfterRevokeNode(persists, s, id, dryRun, fault).0.lists, other) <==> Writable(s.lists, other)
  {
    var entry := NodeStatusEntry(s.nodes[id]);
    if entry.Some? && WriteBit(s.lists, entry.value, true).Some? {
      StaysWritable(s.lists, entry.value, true, other);
    }
  }

  /** Revoking one node hinders no other. */
  lemma {:induction false} StaysUnhindered(
    persists: bool, s: State, id: Id, dryRun: bool, fault: Fault, other: Id, next: Fault)
    requires id in s.nodes && other in s.nodes
    ensures var t := AfterRevokeNode(persists, s, id, dryRun, fault).0;
      && other in t.nodes
      && (Unhindered(persists, t, other, dryRun, next) <==> Unhindered(persists, s, other, dryRun, next))
  {
    var own := NodeStatusEntry(s.nodes[other]);
    RevokeNodeOnlyRevokes(persists, s, id, dryRun, fault);
    SameTreeKeepsEntry(s, AfterRevokeNode(persists, s, id, dryRun, fault).0, other);
    if own.Some? {
      RevokingKeepsWritable(persists, s, id, dryRun, fault, own.value);
    }
  }

  lemma {:induction false} RevokeAllExactly(persists: bool, s: State, ids: seq<Id>, dryRun: bool, faults: Id -> Fault)
    requires Stored(s.nodes, ids)
    ensures RevokeAll(persists, s, ids, dryRun, faults).1 <==>
      forall k :: 0 <= k < |ids| ==> Unhindered(persists, s, ids[k], dryRun, faults(ids[k]))
    decreases |ids|
  {
    if ids != [] {
      var (next, ok) := AfterRevokeNode(persists, s, ids[0], dryRun, faults(ids[0]));
      RevokeNodeExactly(persists, s, ids[0], dryRun, faults(ids[0]));
      forall k | 0 < k < |ids|
        ensures ids[k] == ids[1..][k - 1] && ids[k] in next.nodes
        ensures Unhindered(persists, next, ids[k], dryRun, faults(ids[k]))
           <==> Unhindered(persists, s, ids[k], dryRun, faults(ids[k]))
      {
        StaysUnhindered(persists, s, ids[0], dryRun, faults(ids[0]), ids[k], faults(ids[k]));
      }
      RevokeAllExactly(persists, next, ids[1..], dryRun, faults);
      assert forall k :: 0 <= k < |ids[1..]| ==> ids[1..][k] == ids[k + 1];
    }
  }

  /** A revocation completes exactly when the node is stored and not too deep and nothing stands in
      the way at it or below it: no write or hook throws, every status entry names an existing bit,
      and where there is no entry the provider keeps marks. */
  lemma {:induction false} CompletesExactly(
    persists: bool, s: State, id: Id, dryRun: bool, tooDeep: bool, faults: Id -> Fault)
    ensures Revoke(persists, s, id, dryRun, tooDeep, faults).1 <==>
      && id in s.nodes && !tooDeep
      && forall x :: Below(s.nodes, id, x) ==> x in s.nodes && Unhindered(persists, s, x, dryRun, faults(x))
  {
    if id in s.nodes {
      var ids := [id] + Found(s.nodes, id);
      RevokeAllExactly(persists, s, ids, dryRun, faults);
      assert ChildLinks(s.nodes, id, [id]);
      forall x
        ensures x in ids <==> Below(s.nodes, id, x)
      {
        FoundIsBelow(s.nodes, id, x);
      }
      assert forall k :: 0 <= k < |ids| ==> ids[k] in ids;
    }
  }

  /** A restore completes exactly when the node is stored, its status entry, if any, names an existing
      bit, and neither write throws. */
  lemma {:induction false} RestoreCompletesExactly(persists: bool, s: State, id: Id, status: Write, mark: Write)
    ensures Restore(persists, s, id, status, mark).1 <==>
      && id in s.nodes && mark.Succeeds?
      && var entry := NodeStatusEntry(s.nodes[id]);
         entry.Some? ==> Writable(s.lists, entry.value) && status.Succeeds?
  {
    if id in s.nodes {
      var entry := NodeStatusEntry(s.nodes[id]);
      if entry.Some? {
        WritesSucceedExactly(s.lists, entry.value, false);
      }
    }
  }

  // ---- Runs --------------------------------------------------------------------------

  datatype Operation =
    | RegisterNode(node: Node)
    | RevokeNodes(id: Id, dryRun: bool, tooDeep: bool, faults: Id -> Fault)
    | RestoreNode(id: Id, status: Write, mark: Write)
    | RemoveNode(id: Id, unlink: Write, delete: Write)
    | UpdateEntry(entry: StatusEntry, value: bool, write: Write)   // `updateStatus` called by others
    | CreateList(list: string, empty: SL.StatusList)               // when missing, by an allocation

  function After(persists: bool, s: State, op: Operation): State {
    match op
    case RegisterNode(node) => s.(nodes := Register(s.nodes, node).0)
    case RevokeNodes(id, dryRun, tooDeep, faults) => Revoke(persists, s, id, dryRun, tooDeep, faults).0
    case RestoreNode(id, status, mark) => Restore(persists, s, id, status, mark).0
    case RemoveNode(id, unlink, delete) => s.(nodes := Removal(s.nodes, id, unlink, delete))
    case UpdateEntry(entry, value, write) => WriteStatus(s, entry, value, write).0
    case CreateList(list, empty) => if list in s.lists then s else s.(lists := s.lists[list := empty])
  }

  lemma {:induction false} RevokeOnlyRevokes(
    persists: bool, s: State, id: Id, dryRun: bool, tooDeep: bool, faults: Id -> Fault)
    ensures OnlyRevokes(persists, s, Revoke(persists, s, id, dryRun, tooDeep, faults).0)
  {
    if id in s.nodes {
      RevokeAllOnlyRevokes(persists, s, [id] + Found(s.nodes, id), dryRun, faults);
    }
  }

  lemma {:induction false} MarkKeepsTree(persists: bool, s: State, id: Id, revoked: bool, write: Write)
    requires id in s.nodes
    ensures SameTree(s, Mark(persists, s, id, revoked, write))
  {
  }

  lemma {:induction false} RestoreKeepsTree(persists: bool, s: State, id: Id, status: Write, mark: Write)
    ensures SameTree(s, Restore(persists, s, id, status, mark).0)
  {
    if id in s.nodes {
      MarkKeepsTree(persists, s, id, false, mark);
      assert forall lists :: Mark(persists, s.(lists := lists), id, false, mark).nodes == Mark(persists, s, id, false, mark).nodes;
    }
  }

  // ---- Forests -----------------------------------------------------------------------

  function DepthAfterOperation(s: State, depth: map<Id, nat>, op: Operation): map<Id, nat>
    requires depth.Keys == s.nodes.Keys
  {
    match op
    case RegisterNode(node) => DepthAfter(s.nodes, depth, node)
    case RemoveNode(id, unlink, delete) => if Deletes(s.nodes, id, unlink, delete) then depth - {id} else depth
    case _ => depth
  }

  /** What breaks a forest: removing a node that still has children, and a removal that stops
      between its two writes. */
  predicate BreaksForest(s: State, op: Operation) {
    op.RemoveNode? && RemovalBreaks(s.nodes, op.id, op.unlink, op.delete)
  }

  lemma {:induction false} OtherOperationsKeepForest(persists: bool, s: State, depth: map<Id, nat>, op: Operation)
    requires Forest(s.nodes, depth) && !BreaksForest(s, op)
    ensures Forest(After(persists, s, op).nodes, DepthAfterOperation(s, depth, op))
  {
    match op {
      case RegisterNode(node) => RegisterKeepsForest(s.nodes, depth, node);
      case RevokeNodes(id, dryRun, tooDeep, faults) =>
        RevokeOnlyRevokes(persists, s, id, dryRun, tooDeep, faults);
        ShapeKeepsForest(s.nodes, After(persists, s, op).nodes, depth);
      case RestoreNode(id, status, mark) =>
        RestoreKeepsTree(persists, s, id, status, mark);
        ShapeKeepsForest(s.nodes, After(persists, s, op).nodes, depth);
      case RemoveNode(id, unlink, delete) => RemovalKeepsForestExactly(s.nodes, depth, id, unlink, delete);
      case UpdateEntry(_, _, _) =>
      case CreateList(_, _) =>
    }
  }

  /** An operation, complete or stopped halfway, leaves a forest with parents and children inverse
      to each other exactly when it neither deletes a node that has children nor stops between
      unlinking a node and deleting it. */
  lemma {:induction false} OperationKeepsForest(persists: bool, s: State, depth: map<Id, nat>, op: Operation)
    requires Forest(s.nodes, depth)
    ensures (exists d :: Forest(After(persists, s, op).nodes, d)) <==> !BreaksForest(s, op)
  {
    var after := After(persists, s, op);
    if BreaksForest(s, op) {
      RemovalKeepsForestExactly(s.nodes, depth, op.id, op.unlink, op.delete);
      assert !exists d :: Forest(after.nodes, d);
    } else {
      OtherOperationsKeepForest(persists, s, depth, op);
    }
  }

  // ---- How long a record lasts -------------------------------------------------------

  /** A restore of `y` clears the bit that the entry of `id` names, in whatever spelling. */
  predicate ClearsBitOf(s: State, y: Id, status: Write, id: Id) {
    && y in s.nodes && id in s.nodes
    && var (restored, entry) := (NodeStatusEntry(s.nodes[y]), NodeStatusEntry(s.nodes[id]));
    && restored.Some? && entry.Some? && SameBit(restored.value, entry.value)
    && WriteBit(s.lists, restored.value, false).Some? && TakesEffect(status)
  }

  /** A restore of `y` gets as far as clearing its mark. */
  predicate ClearsMark(s: State, y: Id, status: Write, mark: Write) {
    && y in s.nodes && TakesEffect(mark)
    && var restored := NodeStatusEntry(s.nodes[y]);
    restored.Some? ==> WriteBit(s.lists, restored.value, false).Some? && status.Succeeds?
  }

  /** The operations that end a node's record: deleting it, restoring it to the end, or, when no mark
      is kept, clearing its bit, directly or by a restore of any node whose status entry names it. */
  predicate Erases(persists: bool, s: State, op: Operation, id: Id) {
    match op
    case RemoveNode(x, unlink, delete) => x == id && Deletes(s.nodes, x, unlink, delete)
    case RestoreNode(y, status, mark) =>
      || (y == id && ClearsMark(s, y, status, mark))
      || (ClearsBitOf(s, y, status, id) && !KeptMark(persists, s, id))
    case UpdateEntry(entry, value, write) =>
      && !value && TakesEffect(write) && WriteBit(s.lists, entry, value).Some?
      && id in s.nodes && NodeStatusEntry(s.nodes[id]).Some? && SameBit(entry, NodeStatusEntry(s.nodes[id]).value)
      && !KeptMark(persists, s, id)
    case _ => false
  }

  /** A restore writes one node at most, when it clears that node's mark. */
  lemma {:induction false} RestoredNodes(persists: bool, s: State, y: Id, status: Write, mark: Write)
    ensures Restore(persists, s, y, status, mark).0.nodes ==
      if ClearsMark(s, y, status, mark) then SetMark(s.nodes, y, false, persists) else s.nodes
  {
  }

  lemma {:induction false} RestoredMark(persists: bool, s: State, y: Id, status: Write, mark: Write, id: Id)
    requires id in s.nodes
    ensures var t := Restore(persists, s, y, status, mark).0;
      && id in t.nodes && NodeStatusEntry(t.nodes[id]) == NodeStatusEntry(s.nodes[id])
      && t.nodes[id].revoked == (s.nodes[id].revoked && !(y == id && ClearsMark(s, y, status, mark)))
  {
    RestoredNodes(persists, s, y, status, mark);
  }

  lemma {:induction false} WrittenBit(s: State, entry: StatusEntry, value: bool, write: Write, other: StatusEntry)
    ensures BitSet(WriteStatus(s, entry, value, write).0.lists, other) <==>
      if SameBit(entry, other) && WriteBit(s.lists, entry, value).Some? && TakesEffect(write) then value
      else BitSet(s.lists, other)
  {
    if WriteBit(s.lists, entry, value).Some? {
      WriteBitEffect(s.lists, entry, value, other);
    }
  }

  /** What a restore leaves of the bit that a node's entry names. */
  lemma {:induction false} RestoredBit(persists: bool, s: State, y: Id, status: Write, mark: Write, id: Id)
    requires id in s.nodes
    ensures OwnBit(Restore(persists, s, y, status, mark).0, id) <==> OwnBit(s, id) && !ClearsBitOf(s, y, status, id)
  {
    RestoredMark(persists, s, y, status, mark, id);
    if y in s.nodes {
      var (restored, entry) := (NodeStatusEntry(s.nodes[y]), NodeStatusEntry(s.nodes[id]));
      if restored.Some? && entry.Some? {
        WrittenBit(s, restored.value, false, status, entry.value);
      }
    }
  }

  /** A node whose mark a restore clears has had its bit cleared too. */
  lemma {:induction false} MarkClearsLast(s: State, id: Id, status: Write, mark: Write)
    requires ClearsMark(s, id, status, mark) && OwnBit(s, id)
    ensures ClearsBitOf(s, id, status, id)
  {
  }

  lemma {:induction false} RestoreErases(persists: bool, s: State, y: Id, status: Write, mark: Write, id: Id)
    requires Recorded(persists, s, id)
    ensures Recorded(persists, Restore(persists, s, y, status, mark).0, id)
       <==> !Erases(persists, s, RestoreNode(y, status, mark), id)
  {
    RestoredBit(persists, s, y, status, mark, id);
    RestoredMark(persists, s, y, status, mark, id);
    if ClearsMark(s, id, status, mark) && OwnBit(s, id) {
      MarkClearsLast(s, id, status, mark);
    }
  }

  /** A record outlives an operation exactly when the operation does not erase it. */
  lemma {:induction false} RecordOutlivesOperation(persists: bool, s: State, op: Operation, id: Id)
    requires Recorded(persists, s, id)
    ensures Recorded(persists, After(persists, s, op), id) <==> !Erases(persists, s, op, id)
  {
    match op {
      case RegisterNode(node) =>
      case RevokeNodes(target, dryRun, tooDeep, faults) =>
        RevokeOnlyRevokes(persists, s, target, dryRun, tooDeep, faults);
        RecordedLasts(persists, s, After(persists, s, op), id);
      case RestoreNode(y, status, mark) => RestoreErases(persists, s, y, status, mark, id);
      case RemoveNode(_, _, _) =>
      case UpdateEntry(entry, value, write) =>
        var own := NodeStatusEntry(s.nodes[id]);
        if own.Some? {
          WrittenBit(s, entry, value, write, own.value);
        }
      case CreateList(_, _) =>
    }
  }

  /** The state after a list of operations. */
  function RunFrom(persists: bool, s: State, ops: seq<Operation>): State
    decreases |ops|
  {
    if ops == [] then s else RunFrom(persists, After(persists, s, ops[0]), ops[1..])
  }

  /** No operation of the run erases the record at the moment it is made. */
  predicate NeverErased(persists: bool, s: State, ops: seq<Operation>, id: Id)
    decreases |ops|
  {
    ops == [] || (!Erases(persists, s, ops[0], id) && NeverErased(persists, After(persists, s, ops[0]), ops[1..], id))
  }

  predicate RecordedThroughout(persists: bool, s: State, ops: seq<Operation>, id: Id)
    decreases |ops|
  {
    && Recorded(persists, s, id)
    && (ops == [] || RecordedThroughout(persists, After(persists, s, ops[0]), ops[1..], id))
  }

  /** Over every run a record lasts exactly until an operation erases it. */
  lemma {:induction false} RecordLastsExactly(persists: bool, s: State, ops: seq<Operation>, id: Id)
    requires Recorded(persists, s, id)
    ensures RecordedThroughout(persists, s, ops, id) <==> NeverErased(persists, s, ops, id)
    ensures NeverErased(persists, s, ops, id) ==> Recorded(persists, RunFrom(persists, s, ops), id)
    decreases |ops|
  {
    if ops != [] {
      RecordOutlivesOperation(persists, s, ops[0], id);
      if !Erases(persists, s, ops[0], id) {
        RecordLastsExactly(persists, After(persists, s, ops[0]), ops[1..], id);
      }
    }
  }

  /** A record anywhere on a node's path keeps the node from reading live. */
  lemma {:induction false} RecordedAncestorReads(persists: bool, s: State, a: Id, x: Id, ids: seq<Id>)
    requires PathUp(s.nodes, x, ids) && a in ids && Recorded(persists, s, a)
    ensures ReadChain(s, ids) != Live
  {
    LiveMeansNoneRevoked(s, ids);
    var k :| 0 <= k < |ids| && ids[k] == a;
    assert OwnRevoked(s, ids[k]);
  }

  /** The state that a `revokeDelegation` leaves, however far its cascade got. */
  function RevokedBy(persists: bool, s: State, id: Id, faults: Id -> Fault): State {
    Revoke(persists, s, id, false, false, faults).0
  }

  /** A `revokeDelegation` whose first mark was written on a provider that keeps marks, or that
      completed on any provider, leaves a record of its node. */
  lemma {:induction false} RevocationIsRecorded(persists: bool, s: State, id: Id, faults: Id -> Fault)
    requires id in s.nodes
    requires (persists && TakesEffect(faults(id).mark)) || Revoke(persists, s, id, false, false, faults).1
    ensures Recorded(persists, RevokedBy(persists, s, id, faults), id)
  {
    RevokeAllRecords(persists, s, [id] + Found(s.nodes, id), faults);
    assert ([id] + Found(s.nodes, id))[0] == id;
  }

  /** A completed revocation is recorded for the node and everything below it even when the
      provider drops marks: it never reports success without a trace. */
  lemma {:induction false} SuccessIsRecorded(
    persists: bool, s: State, id: Id, tooDeep: bool, faults: Id -> Fault, x: Id)
    requires Revoke(persists, s, id, false, tooDeep, faults).1 && Below(s.nodes, id, x)
    ensures Recorded(persists, Revoke(persists, s, id, false, tooDeep, faults).0, x)
  {
    var ids := [id] + Found(s.nodes, id);
    FoundIsBelow(s.nodes, id, x);
    RevokeAllRecords(persists, s, ids, faults);
    assert x in ids;
  }

  /** A completed revocation is published: whatever lies below the node and has a status entry has
      its bit set, on every provider; and on one that keeps marks it is marked besides. */
  lemma {:induction false} SuccessIsPublished(
    persists: bool, s: State, id: Id, tooDeep: bool, faults: Id -> Fault, x: Id)
    requires Revoke(persists, s, id, false, tooDeep, faults).1 && Below(s.nodes, id, x)
    ensures var t := Revoke(persists, s, id, false, tooDeep, faults).0;
      && x in t.nodes && NodeStatusEntry(t.nodes[x]) == NodeStatusEntry(s.nodes[x])
      && (NodeStatusEntry(s.nodes[x]).Some? ==> OwnBit(t, x))
      && (persists ==> t.nodes[x].revoked)
  {
    var ids := [id] + Found(s.nodes, id);
    FoundIsBelow(s.nodes, id, x);
    assert x in ids;
    RevokeAllPublishes(persists, s, ids, faults, x);
    RevokeAllOnlyRevokes(persists, s, ids, false, faults);
    SameTreeKeepsEntry(s, RevokeAll(persists, s, ids, false, faults).0, x);
  }

  /** After a `revokeDelegation`, however far it got, that leaves a record of its node, and through
      every later run that does not erase that record, whatever has the node on its path up,
      registered before or after, does not read live. */
  lemma {:induction false} RevokedUntilRestored(
    persists: bool, s: State, id: Id, faults: Id -> Fault, ops: seq<Operation>, x: Id, ids: seq<Id>)
    requires Recorded(persists, RevokedBy(persists, s, id, faults), id)
    requires NeverErased(persists, RevokedBy(persists, s, id, faults), ops, id)
    requires PathUp(RunFrom(persists, RevokedBy(persists, s, id, faults), ops).nodes, x, ids) && id in ids
    ensures ReadChain(RunFrom(persists, RevokedBy(persists, s, id, faults), ops), ids) != Live
  {
    var revoked := RevokedBy(persists, s, id, faults);
    RecordLastsExactly(persists, revoked, ops, id);
    RecordedAncestorReads(persists, RunFrom(persists, revoked, ops), id, x, ids);
  }

  /** Once a cascade completed, a node below stays revoked through every later run that does not
      erase its own record: restoring the node it cascaded from does not revive it. */
  lemma {:induction false} RestoringTheRootRevivesNobody(
    persists: bool, s: State, id: Id, faults: Id -> Fault, ops: seq<Operation>, x: Id, ids: seq<Id>)
    requires Revoke(persists, s, id, false, false, faults).1 && Below(s.nodes, id, x)
    requires NeverErased(persists, RevokedBy(persists, s, id, faults), ops, x)
    requires PathUp(RunFrom(persists, RevokedBy(persists, s, id, faults), ops).nodes, x, ids)
    ensures ReadChain(RunFrom(persists, RevokedBy(persists, s, id, faults), ops), ids) != Live
  {
    var revoked := RevokedBy(persists, s, id, faults);
    SuccessIsRecorded(persists, s, id, false, faults, x);
    RecordLastsExactly(persists, revoked, ops, x);
    assert ids[|ids| - 1] == x;
    RecordedAncestorReads(persists, RunFrom(persists, revoked, ops), x, x, ids);
  }

  /** Why the record of a mark-dropping provider depends on other nodes: restoring a node whose
      status entry names the bit of another brings the other back to life. */
  lemma {:induction false} SharedEntryRevives(s: State, id: Id, other: Id, entry: StatusEntry, spelling: StatusEntry)
    requires id != other && id in s.nodes && other in s.nodes && !s.nodes[id].revoked
    requires NodeStatusEntry(s.nodes[id]) == Some(entry) && CheckBit(s.lists, entry) == Some(true)
    requires NodeStatusEntry(s.nodes[other]) == Some(spelling) && SameBit(entry, spelling)
    ensures ReadChain(s, [id]) == Revoked(s.nodes[id].id)
    ensures var (t, ok) := Restore(false, s, other, Succeeds, Succeeds); ok && id in t.nodes && ReadChain(t, [id]) == Live
  {
    RestoredMark(false, s, other, Succeeds, Succeeds, id);
    var t := Restore(false, s, other, Succeeds, Succeeds).0;
    CheckReadsBit(s.lists, entry);
    WriteBitEffect(s.lists, spelling, false, entry);
    StaysReadable(s.lists, spelling, false, entry);
    LiveMeansNoneRevoked(t, [id]);
  }

  /** A restore that stops leaves its node revoked exactly as it was, unless its bit, already
      cleared, was the only record, or its mark was cleared after all; one that completes leaves no
      record of its own. Nobody else's node changes. */
  lemma {:induction false} RestoreStopsRevoked(persists: bool, s: State, id: Id, status: Write, mark: Write)
    requires id in s.nodes
    ensures var (t, ok) := Restore(persists, s, id, status, mark);
      && (OwnRevoked(t, id) <==>
            || (s.nodes[id].revoked && !ClearsMark(s, id, status, mark))
            || (OwnBit(s, id) && !ClearsBitOf(s, id, status, id)))
      && (ok ==> !OwnRevoked(t, id))
      && (forall x :: x in s.nodes && x != id ==> x in t.nodes && t.nodes[x] == s.nodes[x])
  {
    RestoredBit(persists, s, id, status, mark, id);
    RestoredMark(persists, s, id, status, mark, id);
    if ClearsMark(s, id, status, mark) && OwnBit(s, id) {
      MarkClearsLast(s, id, status, mark);
    }
  }

  lemma {:induction false} SameTreeTransitive(s: State, t: State, u: State)
    requires SameTree(s, t) && SameTree(t, u)
    ensures SameTree(s, u)
  {
  }

  /** One turn of a cascade. */
  lemma {:induction false} CascadeStep(
    persists: bool, s: State, ids: seq<Id>, n: nat, dryRun: bool, faults: Id -> Fault)
    requires n < |ids| && Stored(s.nodes, ids[n..])
    ensures ids[n] in s.nodes
    ensures var (next, ok) := AfterRevokeNode(persists, s, ids[n], dryRun, faults(ids[n]));
      && SameTree(s, next) && Stored(next.nodes, ids[n + 1..])
      && RevokeAll(persists, s, ids[n..], dryRun, faults)
         == if ok then RevokeAll(persists, next, ids[n + 1..], dryRun, faults) else (next, false)
  {
    assert ids[n..][0] == ids[n] && ids[n..][1..] == ids[n + 1..];
    RevokeNodeOnlyRevokes(persists, s, ids[n], dryRun, faults(ids[n]));
  }

  /** A cascade marks its node first and searches the marked graph. */
  lemma {:induction false} CascadeStarts(persists: bool, s: State, id: Id, dryRun: bool, faults: Id -> Fault)
    requires id in s.nodes
    ensures var (next, ok) := AfterRevokeNode(persists, s, id, dryRun, faults(id));
      && SameTree(s, next)
      && Revoke(persists, s, id, dryRun, false, faults)
         == if ok then RevokeAll(persists, next, Found(next.nodes, id), dryRun, faults) else (next, false)
  {
    var ids := [id] + Found(s.nodes, id);
    assert ids[0] == id && ids[1..] == Found(s.nodes, id);
    RevokeNodeOnlyRevokes(persists, s, id, dryRun, faults(id));
    ShapeKeepsFound(s.nodes, AfterRevokeNode(persists, s, id, dryRun, faults(id)).0.nodes, id);
  }

  // ---- The manager -------------------------------------------------------------------

  /** No path up that is short enough; 100 unless a maximum other than 0 is given. */
  ghost predicate TooDeep(g: Graph, id: Id, maxDepthOption: nat) {
    forall ids :: PathUp(g, id, ids) ==> |ids| - 1 > if maxDepthOption == 0 then 100 else maxDepthOption
  }

  class CascadingRevocationManager {
    const graph: DelegationGraphManager
    var lists: Lists

    ghost predicate IsForest()
      reads this, graph, graph.storage
    {
      graph.Valid()
    }

    ghost function Contents(): State
      reads this, graph, graph.storage
    {
      State(graph.storage.nodes, lists)
    }

    constructor (persistsRevoked: bool, lists: Lists)
      ensures Keyed(graph.storage.nodes) && IsForest() && fresh(graph) && fresh(graph.storage)
      ensures graph.persistsRevoked == persistsRevoked && this.lists == lists && graph.storage.nodes == map[]
    {
      graph := new DelegationGraphManager(persistsRevoked);
      this.lists := lists;
    }

    /** `updateStatus`: it throws for a missing list or a bad index, or when its own write does. */
    method UpdateStatus(entry: StatusEntry, value: bool, write: Write) returns (ok: bool)
      modifies this
      ensures (State(graph.storage.nodes, lists), ok)
        == WriteStatus(State(graph.storage.nodes, old(lists)), entry, value, write)
    {
      var written := SL.DoUpdateStatus(ListOf(lists, entry), entry.index, value);
      if written.None? {
        return false;
      }
      if TakesEffect(write) {
        lists := lists[entry.list := written.value];
      }
      return write.Succeeds?;
    }

    method RevokeNode(node: Node, dryRun: bool, fault: Fault) returns (ok: bool)
      requires Keyed(graph.storage.nodes) && node.id in graph.storage.nodes
      requires NodeStatusEntry(node) == NodeStatusEntry(graph.storage.nodes[node.id])
      modifies this, graph.storage
      ensures Keyed(graph.storage.nodes) && (old(IsForest()) ==> IsForest())
      ensures (Contents(), ok) == AfterRevokeNode(graph.persistsRevoked, old(Contents()), node.id, dryRun, fault)
    {
      if dryRun {
        return !fault.hookThrows;
      }
      var marked := Some(false);
      if TakesEffect(fault.mark) {
        marked := graph.SetRevoked(node.id, true);
      }
      if fault.mark.Throws? {
        return false;
      }
      var entry := NodeStatusEntry(node);
      if !marked.value && entry.None? {
        return false;
      }
      if entry.Some? {
        var updated := UpdateStatus(entry.value, true, fault.status);
        if !updated {
          return false;
        }
      }
      return !fault.hookThrows;
    }

    /** Revokes the given nodes in order until one fails: the loop of `revokeDelegation`. */
    method RevokeNodes(nodes: seq<Node>, dryRun: bool, faults: Id -> Fault) returns (ok: bool)
      requires Keyed(graph.storage.nodes)
      requires forall n :: n in nodes ==>
        n.id in graph.storage.nodes && NodeStatusEntry(n) == NodeStatusEntry(graph.storage.nodes[n.id])
      modifies this, graph.storage
      ensures Keyed(graph.storage.nodes) && (old(IsForest()) ==> IsForest())
      ensures Stored(old(graph.storage.nodes), IdsOf(nodes))
      ensures (Contents(), ok) == RevokeAll(graph.persistsRevoked, old(Contents()), IdsOf(nodes), dryRun, faults)
    {
      ghost var start, ids := Contents(), IdsOf(nodes);
      for n := 0 to |nodes|
        invariant Keyed(graph.storage.nodes) && (old(IsForest()) ==> IsForest())
        invariant SameTree(start, Contents()) && Stored(start.nodes, ids) && Stored(graph.storage.nodes, ids[n..])
        invariant RevokeAll(graph.persistsRevoked, start, ids, dryRun, faults)
               == RevokeAll(graph.persistsRevoked, Contents(), ids[n..], dryRun, faults)
      {
        assert nodes[n] in nodes && ids[n] == nodes[n].id;
        ghost var before := Contents();
        CascadeStep(graph.persistsRevoked, before, ids, n, dryRun, faults);
        ok := RevokeNode(nodes[n], dryRun, faults(nodes[n].id));
        SameTreeTransitive(start, before, Contents());
        if !ok {
          return false;
        }
      }
      return true;
    }

    /** `revokeDelegation`: the depth is the length of the path up, and on parent links that never
        end it throws. */
    method RevokeDelegation(id: Id, maxDepthOption: nat, dryRun: bool, faults: Id -> Fault) returns (ok: bool)
      requires Keyed(graph.storage.nodes)
      modifies this, graph.storage
      ensures Keyed(graph.storage.nodes) && (old(IsForest()) ==> IsForest())
      ensures (Contents(), ok) == Revoke(
        graph.persistsRevoked, old(Contents()), id, dryRun, TooDeep(old(graph.storage.nodes), id, maxDepthOption), faults)
    {
      if id !in graph.storage.nodes {
        return false;
      }
      var maxDepth := if maxDepthOption == 0 then 100 else maxDepthOption;
      var chain := graph.storage.GetChain(id);
      if chain.None? {
        return false;
      }
      if |chain.value| - 1 > maxDepth {
        return false;
      }
      CascadeStarts(graph.persistsRevoked, Contents(), id, dryRun, faults);
      ok := RevokeNode(graph.storage.nodes[id], dryRun, faults(id));
      if !ok {
        return false;
      }
      var descendants := graph.storage.GetDescendants(id);
      assert IdsOf(descendants) == Found(graph.storage.nodes, id);
      ok := RevokeNodes(descendants, dryRun, faults);
    }

    method RestoreDelegation(id: Id, status: Write, mark: Write) returns (ok: bool)
      requires Keyed(graph.storage.nodes)
      modifies this, graph.storage
      ensures Keyed(graph.storage.nodes) && (old(IsForest()) ==> IsForest())
      ensures (Contents(), ok) == Restore(graph.persistsRevoked, old(Contents()), id, status, mark)
    {
      if id !in graph.storage.nodes {
        return false;
      }
      var entry := NodeStatusEntry(graph.storage.nodes[id]);
      if entry.Some? {
        var updated := UpdateStatus(entry.value, false, status);
        if !updated {
          return false;
        }
      }
      if TakesEffect(mark) {
        var _ := graph.SetRevoked(id, false);
      }
      return mark.Succeeds?;
    }

    /** `isRevoked`: walks root to target; on parent links that never end it throws. */
    method IsRevoked(id: Id) returns (reading: Reading)
      ensures id !in graph.storage.nodes ==> reading == Live
      ensures id in graph.storage.nodes && (forall ids :: !PathUp(graph.storage.nodes, id, ids)) ==> reading == Unreadable
      ensures forall ids :: PathUp(graph.storage.nodes, id, ids) ==> reading == ReadChain(Contents(), ids)
    {
      var found := graph.storage.GetChain(id);
      if id !in graph.storage.nodes {
        return Live;
      }
      if found.None? {
        return Unreadable;
      }
      var chain := found.value;
      ghost var path :| PathUp(graph.storage.nodes, id, path);
      forall ids | PathUp(graph.storage.nodes, id, ids)
        ensures ids == path
      {
        PathIsUnique(graph.storage.nodes, id, ids, path);
      }
      for n := 0 to |chain|
        invariant ReadChain(Contents(), path) == ReadChain(Contents(), path[n..])
      {
        var node := chain[n];
        assert path[n..][0] == path[n] && path[n..][1..] == path[n + 1..];
        if node.revoked {
          return Revoked(node.id);
        }
        var entry := NodeStatusEntry(node);
        if entry.Some? {
          var bit := CheckBit(lists, entry.value);
          if bit.None? {
            return Unreadable;
          }
          if bit.value {
            return Revoked(node.id);
          }
        }
      }
      return Live;
    }
  }

  function IdsOf(nodes: seq<Node>): (ids: seq<Id>)
    ensures |ids| == |nodes|
    ensures forall k :: 0 <= k < |ids| ==> ids[k] == nodes[k].id
  {
    Mapped(nodes, (node: Node) => node.id)
  }
}
