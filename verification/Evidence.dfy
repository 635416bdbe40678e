/** The reference evidence store, src/audit/evidence.ts, and the table of objects that
    submissions in flight hold, src/audit/recorder-service.ts. */
module Evidence {
  import opened Wrappers
  import opened Hashing

  type ObjectId = nat

  datatype Ref = Ref(objectId: ObjectId, ciphertextDigest: Digest, size: nat)

  datatype Item = Item(ref: Ref, ciphertext: Bytes)

  /** A stored object; no ciphertext means it was disposed and only a tombstone remains. */
  datatype ObjectState = ObjectState(ref: Ref, ciphertext: Option<Bytes>, holds: set<nat>)

  type Store = map<ObjectId, ObjectState>

  datatype Retention = LegalHold(ref: Ref, holdId: nat) | ReleaseHold(ref: Ref, holdId: nat) | Dispose(ref: Ref)

  datatype RetentionState = Missing | Held | Retained | Disposed | LegallyHeld

  predicate Present(store: Store, id: ObjectId) {
    id in store && store[id].ciphertext.Some?
  }

  predicate Intact(sha: Hasher, item: Item) {
    sha(item.ciphertext) == item.ref.ciphertextDigest && |item.ciphertext| == item.ref.size
  }

  /** The store after a put, or None when the put throws: bad bytes, another object under the
      same ID, or a tombstone. */
  function Put(sha: Hasher, store: Store, item: Item): (after: Option<Store>)
    ensures after.Some? ==> Present(after.value, item.ref.objectId)
    ensures after.Some? ==> forall id :: id != item.ref.objectId ==>
      (id in after.value <==> id in store) && (id in store ==> after.value[id] == store[id])
  {
    var id := item.ref.objectId;
    if !Intact(sha, item) then None
    else if id !in store then Some(store[id := ObjectState(item.ref, Some(item.ciphertext), {})])
    else if store[id].ref.ciphertextDigest == item.ref.ciphertextDigest && store[id].ciphertext == Some(item.ciphertext)
    then Some(store) else None
  }

  /** The store after a retention command and the state it reports; `LegallyHeld` is thrown. */
  function Retain(store: Store, command: Retention): (Store, RetentionState) {
    var id := command.ref.objectId;
    if id !in store then (store, Missing)
    else
      var state := store[id];
      match command
      case LegalHold(_, holdId) => (store[id := state.(holds := state.holds + {holdId})], Held)
      case ReleaseHold(_, holdId) =>
        var holds := state.holds - {holdId};
        (store[id := state.(holds := holds)],
         if state.ciphertext.None? then Disposed else if holds != {} then Held else Retained)
      case Dispose(_) =>
        if state.holds != {} then (store, LegallyHeld) else (store[id := state.(ciphertext := None)], Disposed)
  }

  /** Disposal is final: no put and no retention command makes a tombstone readable again. */
  lemma {:induction false} TombstonesStay(sha: Hasher, store: Store, id: ObjectId, item: Item, command: Retention)
    requires id in store && !Present(store, id)
    ensures Put(sha, store, item).Some? ==> !Present(Put(sha, store, item).value, id)
    ensures !Present(Retain(store, command).0, id)
  {
  }

  /** The stored object has the item's digest and bytes. */
  predicate HasBytes(state: ObjectState, item: Item) {
    state.ref.ciphertextDigest == item.ref.ciphertextDigest && state.ciphertext == Some(item.ciphertext)
  }

  /** What a put leaves readable: it succeeds exactly for intact bytes under a new id or a repeat of
      the stored bytes, and then those bytes are there under the reference first given. */
  lemma {:induction false} PutsExactly(sha: Hasher, store: Store, item: Item)
    ensures var (id, after) := (item.ref.objectId, Put(sha, store, item));
      && (after.Some? <==>
            && sha(item.ciphertext) == item.ref.ciphertextDigest && |item.ciphertext| == item.ref.size
            && (id in store ==> HasBytes(store[id], item)))
      && (after.Some? ==>
            && after.value.Keys == store.Keys + {id}
            && after.value[id].ciphertext == Some(item.ciphertext)
            && (id in store ==> after.value == store)
            && (id !in store ==> after.value[id] == ObjectState(item.ref, Some(item.ciphertext), {})))
  {
    var id := item.ref.objectId;
    assert id in store ==> store.Keys + {id} == store.Keys;
  }

  /** What a retention command does to its own object and reports; it touches no other. */
  lemma {:induction false} RetainsExactly(store: Store, command: Retention)
    ensures var (id, after, result) := (command.ref.objectId, Retain(store, command).0, Retain(store, command).1);
      && after.Keys == store.Keys && (forall other :: other in store && other != id ==> after[other] == store[other])
      && (result == Missing <==> id !in store)
      && (id in store ==>
            && after[id].ref == store[id].ref
            && (command.LegalHold? ==>
                  after[id].holds == store[id].holds + {command.holdId} && after[id].ciphertext == store[id].ciphertext
                  && result == Held)
            && (command.ReleaseHold? ==>
                  && after[id].holds == store[id].holds - {command.holdId} && after[id].ciphertext == store[id].ciphertext
                  && (result == Disposed <==> after[id].ciphertext == None)
                  && (result == Held <==> after[id].ciphertext.Some? && after[id].holds != {})
                  && (result == Retained <==> after[id].ciphertext.Some? && after[id].holds == {}))
            && (command.Dispose? ==>
                  && after[id].holds == store[id].holds
                  && (result == LegallyHeld <==> store[id].holds != {})
                  && (result == Disposed <==> store[id].holds == {})
                  && after[id].ciphertext == if store[id].holds == {} then None else store[id].ciphertext))
  {
    if command.ref.objectId in store {
      assert Retain(store, command).0.Keys == store.Keys;
    }
  }

  /** What a store goes through. */
  datatype Command = PutCommand(item: Item) | RetentionCommand(retention: Retention)

  function AfterCommand(sha: Hasher, store: Store, command: Command): Store {
    match command
    case PutCommand(item) => var after := Put(sha, store, item); if after.None? then store else after.value
    case RetentionCommand(retention) => Retain(store, retention).0
  }

  function AfterCommands(sha: Hasher, store: Store, commands: seq<Command>): Store
    decreases |commands|
  {
    if commands == [] then store else AfterCommands(sha, AfterCommand(sha, store, commands[0]), commands[1..])
  }

  /** A legally held object outlives every run of puts and retention commands that does not release
      that hold: its bytes stay and the hold stays. */
  lemma {:induction false} HeldObjectsStay(
    sha: Hasher, store: Store, commands: seq<Command>, id: ObjectId, hold: nat)
    requires id in store && hold in store[id].holds
    requires forall k :: 0 <= k < |commands| && commands[k].RetentionCommand? && commands[k].retention.ReleaseHold? ==>
      !(commands[k].retention.ref.objectId == id && commands[k].retention.holdId == hold)
    ensures var after := AfterCommands(sha, store, commands);
      id in after && hold in after[id].holds && after[id].ciphertext == store[id].ciphertext
    decreases |commands|
  {
    if commands != [] {
      match commands[0] {
        case PutCommand(item) => PutsExactly(sha, store, item);
        case RetentionCommand(retention) => RetainsExactly(store, retention);
      }
      HeldObjectsStay(sha, AfterCommand(sha, store, commands[0]), commands[1..], id, hold);
    }
  }

  class MemoryAuditEvidenceProvider {
    const sha: Hasher
    var states: Store

    constructor (sha: Hasher)
      ensures this.sha == sha && states == map[]
    {
      this.sha, states := sha, map[];
    }

    method PutIfAbsent(item: Item) returns (stored: Option<Ref>)
      modifies this
      ensures var after := Put(sha, old(states), item);
        if after.None? then stored.None? && states == old(states)
        else stored == Some(after.value[item.ref.objectId].ref) && states == after.value
    {
      var id := item.ref.objectId;
      if sha(item.ciphertext) != item.ref.ciphertextDigest || |item.ciphertext| != item.ref.size {
        return None;
      }
      if id in states {
        var existing := states[id];
        if existing.ref.ciphertextDigest != item.ref.ciphertextDigest
           || existing.ciphertext.None? || existing.ciphertext.value != item.ciphertext {
          return None;
        }
        return Some(existing.ref);
      }
      states := states[id := ObjectState(item.ref, Some(item.ciphertext), {})];
      return Some(item.ref);
    }

    method ApplyRetention(command: Retention) returns (state: RetentionState)
      modifies this
      ensures (states, state) == Retain(old(states), command)
    {
      var id := command.ref.objectId;
      if id !in states {
        return Missing;
      }
      var found := states[id];
      match command {
        case LegalHold(_, holdId) =>
          states := states[id := found.(holds := found.holds + {holdId})];
          return Held;
        case ReleaseHold(_, holdId) =>
          var holds := found.holds - {holdId};
          states := states[id := found.(holds := holds)];
          return if found.ciphertext.None? then Disposed else if holds != {} then Held else Retained;
        case Dispose(_) =>
          if found.holds != {} {
            return LegallyHeld;
          }
          states := states[id := found.(ciphertext := None)];
          return Disposed;
      }
    }
  }

  // ---- Objects held by submissions in flight -----------------------------------------

  datatype Hold = Hold(holders: int, shared: bool)

  type Holds = map<ObjectId, Hold>

  function Ids(items: seq<Item>): (ids: set<ObjectId>)
    ensures forall i :: 0 <= i < |items| ==> items[i].ref.objectId in ids
    ensures forall id :: id in ids ==> exists i :: 0 <= i < |items| && items[i].ref.objectId == id
  {
    set i | 0 <= i < |items| :: items[i].ref.objectId
  }

  function Holding(held: Holds, ids: set<ObjectId>): Holds {
    map id | id in held.Keys + ids ::
      if id !in ids then held[id]
      else if id !in held then Hold(1, false)
      else Hold(held[id].holders + 1, true)
  }

  function Releasing(held: Holds, ids: set<ObjectId>): Holds {
    map id | id in held && !(id in ids && held[id].holders == 1) ::
      if id in ids then held[id].(holders := held[id].holders - 1) else held[id]
  }

  class HeldEvidence {
    var heldEvidence: Holds

    constructor ()
      ensures heldEvidence == map[]
    {
      heldEvidence := map[];
    }

    method HoldEvidence(evidence: seq<Item>) returns (objectIds: seq<ObjectId>)
      modifies this
      ensures heldEvidence == Holding(old(heldEvidence), Ids(evidence))
      ensures (forall id :: id in objectIds <==> id in Ids(evidence))
      ensures forall i, j :: 0 <= i < j < |objectIds| ==> objectIds[i] != objectIds[j]
    {
      objectIds := Distinct(evidence);
      for n := 0 to |objectIds|
        invariant heldEvidence == Holding(old(heldEvidence), set id | id in objectIds[..n])
      {
        var objectId := objectIds[n];
        assert objectIds[..n + 1] == objectIds[..n] + [objectId];
        assert objectId !in objectIds[..n];
        if objectId !in heldEvidence {
          heldEvidence := heldEvidence[objectId := Hold(1, false)];
        } else {
          heldEvidence := heldEvidence[objectId := Hold(heldEvidence[objectId].holders + 1, true)];
        }
      }
      assert objectIds[..|objectIds|] == objectIds;
      assert (set id | id in objectIds) == Ids(evidence);
    }

    method ReleaseEvidence(objectIds: seq<ObjectId>)
      requires forall id :: id in objectIds ==> id in heldEvidence
      requires forall i, j :: 0 <= i < j < |objectIds| ==> objectIds[i] != objectIds[j]
      modifies this
      ensures heldEvidence == Releasing(old(heldEvidence), set id | id in objectIds)
    {
      for n := 0 to |objectIds|
        invariant heldEvidence == Releasing(old(heldEvidence), set id | id in objectIds[..n])
      {
        var objectId := objectIds[n];
        assert objectIds[..n + 1] == objectIds[..n] + [objectId];
        assert objectId !in objectIds[..n];
        var hold := heldEvidence[objectId];
        if hold.holders == 1 {
          heldEvidence := heldEvidence - {objectId};
        } else {
          heldEvidence := heldEvidence[objectId := hold.(holders := hold.holders - 1)];
        }
      }
      assert objectIds[..|objectIds|] == objectIds;
    }
  }

  /** The distinct object IDs of some items, in first-seen order. */
  method Distinct(evidence: seq<Item>) returns (objectIds: seq<ObjectId>)
    ensures forall id :: id in objectIds <==> id in Ids(evidence)
    ensures forall i, j :: 0 <= i < j < |objectIds| ==> objectIds[i] != objectIds[j]
  {
    objectIds := [];
    for n := 0 to |evidence|
      invariant forall id :: id in objectIds <==> id in Ids(evidence[..n])
      invariant forall i, j :: 0 <= i < j < |objectIds| ==> objectIds[i] != objectIds[j]
    {
      var objectId := evidence[n].ref.objectId;
      assert Ids(evidence[..n + 1]) == Ids(evidence[..n]) + {objectId} by {
        assert evidence[..n + 1] == evidence[..n] + [evidence[n]];
      }
      if objectId !in objectIds {
        objectIds := objectIds + [objectId];
      }
    }
    assert evidence[..|evidence|] == evidence;
  }
}
