/** The delegation graph, src/delegation/delegation-graph.ts, over the reference store,
    src/delegation/storage/memory-graph-storage.ts. */
module DelegationGraph {
  import opened Wrappers
  import opened StatusEntries

  type Id = nat

  type Did = nat

  datatype Node = Node(
    id: Id, parentId: Option<Id>, children: seq<Id>, issuerDid: Did, subjectDid: Did,
    credentialStatusId: Option<string>, credentialStatus: Option<StatusEntry>, revoked: bool)

  type Graph = map<Id, Node>

  /** Nodes are stored under their own ids. */
  predicate Keyed(g: Graph) {
    forall id :: id in g ==> g[id].id == id
  }

  // ---- Forests -----------------------------------------------------------------------

  /** One node against its parent: linked both ways and one level below it. */
  predicate LinkedUp(g: Graph, depth: map<Id, nat>, id: Id) {
    && id in g && id in depth && g[id].id == id
    && match g[id].parentId
       case None => depth[id] == 0
       case Some(p) => p in g && p in depth && id in g[p].children && depth[id] == depth[p] + 1
  }

  /** One node against its children: each is stored and names it as parent, and none repeats. */
  predicate LinkedDown(g: Graph, p: Id) {
    && p in g
    && (forall c :: c in g[p].children ==> c in g && g[c].parentId == Some(p))
    && (forall i, j :: 0 <= i < j < |g[p].children| ==> g[p].children[i] != g[p].children[j])
  }

  /** Parents and children are inverse to each other and every node has a finite depth, so the
      graph is a forest. */
  ghost predicate Forest(g: Graph, depth: map<Id, nat>) {
    && depth.Keys == g.Keys
    && (forall id {:trigger LinkedUp(g, depth, id)} :: id in g ==> LinkedUp(g, depth, id))
    && (forall id {:trigger LinkedDown(g, id)} :: id in g ==> LinkedDown(g, id))
  }

  /** The ids from the root to a node. */
  ghost function ChainTo(g: Graph, depth: map<Id, nat>, id: Id): (chain: seq<Id>)
    requires Forest(g, depth) && id in g
    ensures |chain| == depth[id] + 1 && chain[|chain| - 1] == id
    ensures forall k :: 0 <= k < |chain| ==> chain[k] in g
    decreases depth[id]
  {
    assert LinkedUp(g, depth, id);
    match g[id].parentId
    case None => [id]
    case Some(p) =>
      assert LinkedUp(g, depth, p);
      ChainTo(g, depth, p) + [id]
  }

  /** `a` is an ancestor of `id` or `id` itself. */
  ghost predicate OnChain(g: Graph, depth: map<Id, nat>, a: Id, id: Id)
    requires Forest(g, depth) && id in g
  {
    a in ChainTo(g, depth, id)
  }

  lemma {:induction false} ChainOfChild(g: Graph, depth: map<Id, nat>, p: Id, c: Id)
    requires Forest(g, depth) && c in g && g[c].parentId == Some(p)
    ensures p in g && ChainTo(g, depth, c) == ChainTo(g, depth, p) + [c]
  {
    assert LinkedUp(g, depth, c);
  }

  lemma {:induction false} OnChainOfChild(g: Graph, depth: map<Id, nat>, a: Id, p: Id, c: Id)
    requires Forest(g, depth) && c in g && g[c].parentId == Some(p)
    ensures p in g && (OnChain(g, depth, a, c) <==> a == c || OnChain(g, depth, a, p))
  {
    ChainOfChild(g, depth, p, c);
  }

  // ---- Registration ------------------------------------------------------------------

  /** The stored node and a repeated registration agree on every registered field. */
  predicate SameRegistration(stored: Node, incoming: Node) {
    && stored.parentId == incoming.parentId
    && stored.issuerDid == incoming.issuerDid && stored.subjectDid == incoming.subjectDid
    && stored.credentialStatusId == incoming.credentialStatusId
    && stored.credentialStatus == incoming.credentialStatus
  }

  datatype Registration = Registered(node: Node) | OwnParent | ParentNotFound | AlreadyRegistered

  function AddChild(parent: Node, child: Id): Node {
    if child in parent.children then parent else parent.(children := parent.children + [child])
  }

  /** The graph after `registerDelegation`, and its answer. */
  function Register(g: Graph, node: Node): (Graph, Registration) {
    if node.parentId == Some(node.id) then (g, OwnParent)
    else if node.parentId.Some? && node.parentId.value !in g then (g, ParentNotFound)
    else if node.id in g then
      (g, if SameRegistration(g[node.id], node) then Registered(g[node.id]) else AlreadyRegistered)
    else
      var newNode := node.(children := [], revoked := false);
      var linked := match node.parentId
                    case None => g
                    case Some(p) => g[p := AddChild(g[p], node.id)];
      (linked[node.id := newNode], Registered(newNode))
  }

  /** What a registration does: a node may not name itself or a missing parent; one that is stored is
      returned if nothing registered differs, and kept as it is in any case; and a new one is stored
      as it comes and listed last by its parent, and nothing else changes. */
  lemma {:induction false} RegistersExactly(g: Graph, node: Node)
    requires node.children == [] && !node.revoked
    ensures var (after, answer) := Register(g, node);
      var (self, orphan) := (node.parentId == Some(node.id), node.parentId.Some? && node.parentId.value !in g);
      && (answer == OwnParent <==> self)
      && (answer == ParentNotFound <==> !self && orphan)
      && (!answer.Registered? ==> after == g)
      && (!self && !orphan && node.id in g ==>
            && after == g
            && answer == if g[node.id].(id := node.id, children := [], revoked := false) == node
                         then Registered(g[node.id]) else AlreadyRegistered)
      && (!self && !orphan && node.id !in g ==>
            && answer == Registered(node)
            && after.Keys == g.Keys + {node.id} && after[node.id] == node
            && (forall id :: id in g && node.parentId != Some(id) ==> after[id] == g[id])
            && (node.parentId.Some? && node.id !in g[node.parentId.value].children ==>
                  var p := node.parentId.value; after[p] == g[p].(children := g[p].children + [node.id])))
  {
  }

  /** The store's own atomic registration: a stored id is settled before the parent is looked at. */
  function RegisterAtomic(g: Graph, node: Node): (Graph, bool) {
    if node.parentId == Some(node.id) then (g, false)
    else if node.id in g then (g, SameRegistration(g[node.id], node))
    else (Register(g, node).0, Register(g, node).1.Registered?)
  }

  /** The store differs from the manager's checks in one case only: repeating a registration whose
      parent is no longer stored is a no-op for the store and an error for the manager. */
  lemma {:induction false} AtomicDiffersOnRepeats(g: Graph, node: Node)
    ensures RegisterAtomic(g, node).0 == Register(g, node).0
    ensures RegisterAtomic(g, node).1 == Register(g, node).1.Registered? <==>
      !(node.parentId != Some(node.id) && node.parentId.Some? && node.parentId.value !in g
        && node.id in g && SameRegistration(g[node.id], node))
  {
  }

  function DepthAfter(g: Graph, depth: map<Id, nat>, node: Node): map<Id, nat>
    requires depth.Keys == g.Keys
  {
    if Register(g, node).1.Registered? && node.id !in g then
      depth[node.id := match node.parentId case None => 0 case Some(p) => depth[p] + 1]
    else depth
  }

  lemma {:induction false} RegisterKeepsForest(g: Graph, depth: map<Id, nat>, node: Node)
    requires Forest(g, depth)
    ensures Forest(Register(g, node).0, DepthAfter(g, depth, node))
  {
    var (after, answer) := Register(g, node);
    if answer.Registered? && node.id !in g {
      var deeper := DepthAfter(g, depth, node);
      forall id | id in after
        ensures LinkedUp(after, deeper, id) && LinkedDown(after, id)
      {
        if id == node.id {
          if node.parentId.Some? {
            NewChildIsNew(g, depth, node.parentId.value, node.id);
          }
        } else {
          assert LinkedUp(g, depth, id) && LinkedDown(g, id);
          OldNodeStaysLinked(g, depth, node, id);
        }
      }
    }
  }

  lemma {:induction false} NewChildIsNew(g: Graph, depth: map<Id, nat>, p: Id, c: Id)
    requires Forest(g, depth) && p in g && c !in g
    ensures c !in g[p].children
  {
    assert LinkedDown(g, p);
  }

  lemma {:induction false} OldNodeStaysLinked(g: Graph, depth: map<Id, nat>, node: Node, id: Id)
    requires Forest(g, depth) && node.id !in g && Register(g, node).1.Registered? && id in g
    ensures LinkedUp(Register(g, node).0, DepthAfter(g, depth, node), id)
    ensures LinkedDown(Register(g, node).0, id)
  {
    assert LinkedUp(g, depth, id) && LinkedDown(g, id);
    var after := Register(g, node).0;
    if node.parentId == Some(id) {
      assert after[id].children == g[id].children + [node.id];
    }
  }

  /** Registration never changes where a stored node hangs. */
  lemma {:induction false} RegisterKeepsChains(g: Graph, depth: map<Id, nat>, node: Node, id: Id)
    requires Forest(g, depth) && id in g
    ensures Forest(Register(g, node).0, DepthAfter(g, depth, node)) && id in Register(g, node).0
    ensures ChainTo(Register(g, node).0, DepthAfter(g, depth, node), id) == ChainTo(g, depth, id)
    decreases depth[id]
  {
    RegisterKeepsForest(g, depth, node);
    assert LinkedUp(g, depth, id);
    if g[id].parentId.Some? {
      RegisterKeepsChains(g, depth, node, g[id].parentId.value);
    }
  }

  // ---- Marks and removal -------------------------------------------------------------

  /** The stored node after `setRevoked`; a provider that keeps a fixed set of fields drops the mark. */
  function SetMark(g: Graph, id: Id, revoked: bool, persists: bool): Graph
    requires id in g
  {
    g[id := g[id].(revoked := persists && revoked)]
  }

  /** The mark is set exactly when it should be and the provider keeps it; nothing else changes. */
  lemma {:induction false} MarksExactly(g: Graph, id: Id, revoked: bool, persists: bool)
    requires id in g
    ensures var after := SetMark(g, id, revoked, persists);
      && after.Keys == g.Keys && (forall other :: other in g && other != id ==> after[other] == g[other])
      && after[id] == g[id].(revoked := after[id].revoked)
      && (after[id].revoked <==> persists && revoked)
  {
  }

  ghost predicate SameShape(g: Graph, h: Graph) {
    g.Keys == h.Keys
    && forall id :: id in g ==> h[id].id == g[id].id && h[id].parentId == g[id].parentId && h[id].children == g[id].children
  }

  lemma {:induction false} ShapeKeepsForest(g: Graph, h: Graph, depth: map<Id, nat>)
    requires Forest(g, depth) && SameShape(g, h)
    ensures Forest(h, depth)
  {
    forall id | id in h
      ensures LinkedUp(h, depth, id) && LinkedDown(h, id)
    {
      assert LinkedUp(g, depth, id) && LinkedDown(g, id);
    }
  }

  lemma {:induction false} ShapeKeepsChains(g: Graph, h: Graph, depth: map<Id, nat>, id: Id)
    requires Forest(g, depth) && Forest(h, depth) && SameShape(g, h) && id in g
    ensures ChainTo(h, depth, id) == ChainTo(g, depth, id)
    decreases depth[id]
  {
    assert LinkedUp(g, depth, id);
    if g[id].parentId.Some? {
      ShapeKeepsChains(g, h, depth, g[id].parentId.value);
    }
  }

  function Without(ids: seq<Id>, id: Id): (rest: seq<Id>)
    ensures forall c :: c in rest <==> c in ids && c != id
  {
    if ids == [] then []
    else (if ids[0] == id then [] else [ids[0]]) + Without(ids[1..], id)
  }

  /** It takes an id out and keeps the others in their order. */
  lemma {:induction false} WithoutKeepsOrder(a: seq<Id>, id: Id, b: seq<Id>)
    requires id !in a && id !in b
    ensures Without(a + [id] + b, id) == a + b && Without(a, id) == a
  {
    if a == [] {
      WithoutNone(b, id);
      assert ([id] + b)[1..] == b && [] + [id] + b == [id] + b;
    } else {
      WithoutNone(a, id);
      WithoutKeepsOrder(a[1..], id, b);
      assert (a + [id] + b)[1..] == a[1..] + [id] + b && a == [a[0]] + a[1..];
    }
  }

  lemma {:induction false} WithoutNone(ids: seq<Id>, id: Id)
    requires id !in ids
    ensures Without(ids, id) == ids
  {
    if ids != [] {
      WithoutNone(ids[1..], id);
    }
  }

  lemma {:induction false} WithoutDistinct(ids: seq<Id>, id: Id)
    requires forall i, j :: 0 <= i < j < |ids| ==> ids[i] != ids[j]
    ensures forall i, j :: 0 <= i < j < |Without(ids, id)| ==> Without(ids, id)[i] != Without(ids, id)[j]
  {
    if ids != [] {
      WithoutDistinct(ids[1..], id);
      assert forall c :: c in Without(ids[1..], id) ==> c in ids[1..];
      assert ids[0] !in ids[1..];
    }
  }

  /** One write to a provider: it throws, perhaps after taking effect. */
  datatype Write = Succeeds | Throws(applied: bool)

  predicate TakesEffect(write: Write) {
    write.Succeeds? || write.applied
  }

  predicate HasStoredParent(g: Graph, id: Id) {
    id in g && g[id].parentId.Some? && g[id].parentId.value in g
  }

  /** The graph after the first write of `removeDelegation`, to the parent if it is stored. */
  function Unlinked(g: Graph, id: Id): Graph {
    if HasStoredParent(g, id) then
      var p := g[id].parentId.value;
      g[p := g[p].(children := Without(g[p].children, id))]
    else g
  }

  /** A `removeDelegation` unlinks the node, and it deletes it. */
  predicate Unlinks(g: Graph, id: Id, unlink: Write) {
    HasStoredParent(g, id) && TakesEffect(unlink)
  }

  predicate Deletes(g: Graph, id: Id, unlink: Write, delete: Write) {
    id in g && (HasStoredParent(g, id) ==> unlink.Succeeds?) && TakesEffect(delete)
  }

  /** The graph after `removeDelegation`, however far it gets. */
  function Removal(g: Graph, id: Id, unlink: Write, delete: Write): Graph {
    var unlinked := if Unlinks(g, id, unlink) then Unlinked(g, id) else g;
    if Deletes(g, id, unlink, delete) then unlinked - {id} else unlinked
  }

  /** How far a removal gets: a stored parent is written first, and unless that throws the node goes. */
  lemma {:induction false} RemovesExactly(g: Graph, id: Id, unlink: Write, delete: Write)
    ensures var after := Removal(g, id, unlink, delete);
      && (id !in g ==> after == g)
      && (id in g && (g[id].parentId.None? || g[id].parentId.value !in g) ==>
            after == if delete == Throws(false) then g else g - {id})
      && (id in g && g[id].parentId.Some? && g[id].parentId.value in g ==>
            && var p := g[id].parentId.value;
            && after.Keys == (if unlink == Succeeds && delete != Throws(false) then g.Keys - {id} else g.Keys)
            && (forall other :: other in after && other != p ==> after[other] == g[other])
            && (p in after ==>
                  after[p] == if unlink == Throws(false) then g[p] else g[p].(children := Without(g[p].children, id))))
  {
  }

  /** The graph after a removal that completes. */
  function Remove(g: Graph, id: Id): Graph {
    Removal(g, id, Succeeds, Succeeds)
  }

  lemma {:induction false} RemoveLeafKeepsForest(g: Graph, depth: map<Id, nat>, leaf: Id)
    requires Forest(g, depth) && leaf in g && g[leaf].children == []
    ensures Forest(Remove(g, leaf), depth - {leaf})
  {
    var (after, deeper) := (Remove(g, leaf), depth - {leaf});
    assert LinkedUp(g, depth, leaf);
    forall id | id in after
      ensures LinkedUp(after, deeper, id) && LinkedDown(after, id)
    {
      assert LinkedUp(g, depth, id) && LinkedDown(g, id);
      WithoutDistinct(g[id].children, leaf);
    }
  }

  /** A removed node leaves its children naming a parent that is gone. */
  lemma {:induction false} RemovedParentBreaks(g: Graph, depth: map<Id, nat>, id: Id, d: map<Id, nat>)
    requires Forest(g, depth) && id in g && g[id].children != []
    ensures !Forest(Remove(g, id), d)
  {
    var child := g[id].children[0];
    assert LinkedDown(g, id) && LinkedUp(g, depth, child) && LinkedUp(g, depth, id);
    assert child in Remove(g, id) && !LinkedUp(Remove(g, id), d, child);
  }

  /** A node that is unlinked but still stored is missing from its parent's children. */
  lemma {:induction false} UnlinkedChildBreaks(g: Graph, depth: map<Id, nat>, id: Id, d: map<Id, nat>)
    requires Forest(g, depth) && HasStoredParent(g, id)
    ensures !Forest(Unlinked(g, id), d)
  {
    assert LinkedUp(g, depth, id);
    assert id in Unlinked(g, id) && !LinkedUp(Unlinked(g, id), d, id);
  }

  /** The removals that a forest does not survive: deleting a node that has children, and stopping
      between the two writes. */
  predicate RemovalBreaks(g: Graph, id: Id, unlink: Write, delete: Write) {
    if Deletes(g, id, unlink, delete) then g[id].children != [] else Unlinks(g, id, unlink)
  }

  /** However far a removal gets, it leaves a forest, under whatever depths, exactly when it is none
      of those. */
  lemma {:induction false} RemovalKeepsForestExactly(
    g: Graph, depth: map<Id, nat>, id: Id, unlink: Write, delete: Write)
    requires Forest(g, depth)
    ensures (exists d :: Forest(Removal(g, id, unlink, delete), d)) <==> !RemovalBreaks(g, id, unlink, delete)
    ensures !RemovalBreaks(g, id, unlink, delete) ==>
      Forest(Removal(g, id, unlink, delete), if Deletes(g, id, unlink, delete) then depth - {id} else depth)
  {
    var after := Removal(g, id, unlink, delete);
    if Deletes(g, id, unlink, delete) {
      assert after == Remove(g, id);
      if g[id].children == [] {
        RemoveLeafKeepsForest(g, depth, id);
      } else {
        forall d
          ensures !Forest(after, d)
        {
          RemovedParentBreaks(g, depth, id, d);
        }
      }
    } else if Unlinks(g, id, unlink) {
      forall d
        ensures !Forest(after, d)
      {
        UnlinkedChildBreaks(g, depth, id, d);
      }
    }
  }

  /** Removing a leaf moves nobody else. */
  lemma {:induction false} RemoveLeafKeepsChains(g: Graph, depth: map<Id, nat>, leaf: Id, id: Id)
    requires Forest(g, depth) && leaf in g && g[leaf].children == [] && id in g && id != leaf
    ensures Forest(Remove(g, leaf), depth - {leaf}) && id in Remove(g, leaf)
    ensures ChainTo(Remove(g, leaf), depth - {leaf}, id) == ChainTo(g, depth, id)
    decreases depth[id]
  {
    RemoveLeafKeepsForest(g, depth, leaf);
    assert LinkedUp(g, depth, id);
    if g[id].parentId.Some? {
      RemoveLeafKeepsChains(g, depth, leaf, g[id].parentId.value);
    }
  }

  /** Removing a node that still has children is what the forest does not survive: its id can
      then be registered again under its own former child, and the two name each other as parent. */
  lemma {:induction false} RemovalCanCloseACycle(root: Node, child: Node, again: Node, depth: map<Id, nat>)
    requires root.parentId == None && child.parentId == Some(root.id) && child.id != root.id
    requires again.id == root.id && again.parentId == Some(child.id)
    ensures var g := Register(Remove(Register(Register(map[], root).0, child).0, root.id), again).0;
      && g.Keys == {root.id, child.id}
      && g[root.id].parentId == Some(child.id) && g[child.id].parentId == Some(root.id)
      && !Forest(g, depth)
  {
    var g1 := Register(map[], root).0;
    var g2 := Register(g1, child).0;
    var g3 := Remove(g2, root.id);
    assert g2.Keys == {root.id, child.id} && g3.Keys == {child.id};
    var g := Register(g3, again).0;
    assert g[root.id].parentId == Some(child.id) && g[child.id].parentId == Some(root.id);
    NoMutualParents(g, depth, root.id, child.id);
  }

  lemma {:induction false} NoMutualParents(g: Graph, depth: map<Id, nat>, a: Id, b: Id)
    requires a in g && b in g && g[a].parentId == Some(b) && g[b].parentId == Some(a)
    ensures !(LinkedUp(g, depth, a) && LinkedUp(g, depth, b))
  {
  }

  // ---- The store ---------------------------------------------------------------------

  /** The nodes of a chain of ids. */
  function NodesOf(g: Graph, ids: seq<Id>): (nodes: seq<Node>)
    requires forall k :: 0 <= k < |ids| ==> ids[k] in g
    ensures |nodes| == |ids|
    ensures forall k :: 0 <= k < |ids| ==> nodes[k] == g[ids[k]]
  {
    seq(|ids|, k requires 0 <= k < |ids| => g[ids[k]])
  }

  /** Position k of a chain: a node at depth k whose parent is the one before. */
  predicate Rung(g: Graph, depth: map<Id, nat>, ids: seq<Id>, k: nat)
    requires k < |ids|
  {
    && ids[k] in g && ids[k] in depth && depth[ids[k]] == k
    && g[ids[k]].parentId == if k == 0 then None else Some(ids[k - 1])
  }

  /** Along a chain, each node is one level below the one before, its parent. */
  lemma {:induction false} ChainShape(g: Graph, depth: map<Id, nat>, id: Id, k: nat)
    requires Forest(g, depth) && id in g && k <= depth[id]
    ensures Rung(g, depth, ChainTo(g, depth, id), k)
    decreases depth[id]
  {
    assert LinkedUp(g, depth, id);
    if g[id].parentId.Some? {
      var p := g[id].parentId.value;
      ChainOfChild(g, depth, p, id);
      if k < depth[id] {
        ChainShape(g, depth, p, k);
      }
    }
  }

  // ---- What lies below a node --------------------------------------------------------

  /** Stored ids from `id` down, each a listed child of the one before. */
  ghost predicate ChildLinks(g: Graph, id: Id, ids: seq<Id>) {
    && ids != [] && ids[0] == id
    && (forall k :: 0 <= k < |ids| ==> ids[k] in g)
    && (forall j, k :: 0 <= j < k < |ids| && k == j + 1 ==> ids[k] in g[ids[j]].children)
  }

  ghost predicate Below(g: Graph, id: Id, x: Id) {
    exists ids :: ChildLinks(g, id, ids) && ids[|ids| - 1] == x
  }

  lemma {:induction false} BelowChild(g: Graph, id: Id, x: Id, c: Id)
    requires Below(g, id, x) && c in g && x in g && c in g[x].children
    ensures Below(g, id, c)
  {
    var ids :| ChildLinks(g, id, ids) && ids[|ids| - 1] == x;
    assert ChildLinks(g, id, ids + [c]);
  }

  function StoredOf(g: Graph, ids: seq<Id>): (stored: seq<Id>)
    ensures forall k :: 0 <= k < |stored| ==> stored[k] in g
  {
    if ids == [] then []
    else StoredOf(g, ids[..|ids| - 1]) + if ids[|ids| - 1] in g then [ids[|ids| - 1]] else []
  }

  lemma {:induction false} StoredMembers(g: Graph, ids: seq<Id>, x: Id)
    ensures x in StoredOf(g, ids) <==> x in ids && x in g
  {
    if ids != [] {
      StoredMembers(g, ids[..|ids| - 1], x);
      assert ids == ids[..|ids| - 1] + [ids[|ids| - 1]];
    }
  }

  lemma {:induction false} StoredAll(g: Graph, ids: seq<Id>)
    requires forall x :: x in ids ==> x in g
    ensures StoredOf(g, ids) == ids
  {
    if ids != [] {
      StoredAll(g, ids[..|ids| - 1]);
      assert ids == ids[..|ids| - 1] + [ids[|ids| - 1]];
    }
  }

  /** The stored nodes of a list of ids. */
  function Listed(g: Graph, ids: seq<Id>): seq<Node> {
    if ids == [] then []
    else
      var n := |ids| - 1;
      Listed(g, ids[..n]) + if ids[n] in g then [g[ids[n]]] else []
  }

  lemma {:induction false} ListedSnoc(g: Graph, ids: seq<Id>, c: Id)
    ensures Listed(g, ids + [c]) == Listed(g, ids) + if c in g then [g[c]] else []
  {
    assert (ids + [c])[..|ids|] == ids && (ids + [c])[|ids|] == c;
  }

  lemma {:induction false} ListedAppend(g: Graph, a: seq<Id>, b: seq<Id>)
    ensures Listed(g, a + b) == Listed(g, a) + Listed(g, b)
  {
    if b == [] {
      assert a + b == a;
    } else {
      var n := |b| - 1;
      ListedAppend(g, a, b[..n]);
      assert (a + b)[..|a + b| - 1] == a + b[..n];
    }
  }

  lemma {:induction false} ListedIsStored(g: Graph, ids: seq<Id>)
    ensures Listed(g, ids) == NodesOf(g, StoredOf(g, ids))
  {
    if ids != [] {
      ListedIsStored(g, ids[..|ids| - 1]);
    }
  }

  /** Those of a list of children that are not visited. */
  function Unvisited(children: seq<Id>, visited: set<Id>): seq<Id> {
    if children == [] then []
    else
      var n := |children| - 1;
      Unvisited(children[..n], visited) + if children[n] in visited then [] else [children[n]]
  }

  lemma {:induction false} UnvisitedMembers(children: seq<Id>, visited: set<Id>, c: Id)
    ensures c in Unvisited(children, visited) <==> c in children && c !in visited
  {
    if children != [] {
      UnvisitedMembers(children[..|children| - 1], visited, c);
      assert children == children[..|children| - 1] + [children[|children| - 1]];
    }
  }

  lemma {:induction false} UnvisitedNext(children: seq<Id>, visited: set<Id>, n: nat)
    requires n < |children|
    ensures Unvisited(children[..n + 1], visited)
         == Unvisited(children[..n], visited) + if children[n] in visited then [] else [children[n]]
  {
    assert children[..n + 1][..n] == children[..n];
  }

  /** A breadth-first search: all that it queued, of which it took the first k; the ids it visited,
      and the stored ones that it did not. */
  datatype Search = Search(queued: seq<Id>, k: nat, visited: set<Id>, left: set<Id>)

  function SearchStart(g: Graph, id: Id): Search {
    Search([id], 0, {}, g.Keys)
  }

  /** One turn: visiting a new stored node queues its unvisited children. */
  function Turn(g: Graph, s: Search): Search
    requires s.k < |s.queued|
  {
    var x := s.queued[s.k];
    var visited := s.visited + {x};
    if x in s.left && x in g then
      Search(s.queued + Unvisited(g[x].children, visited), s.k + 1, visited, s.left - {x})
    else s.(k := s.k + 1, visited := visited)
  }

  /** All that is queued by the end. */
  function Queued(g: Graph, s: Search): (all: seq<Id>)
    ensures |all| >= |s.queued|
    decreases s.left, |s.queued| - s.k
  {
    if s.k >= |s.queued| then s.queued else Queued(g, Turn(g, s))
  }

  /** What the search finds: the stored ids that it queues, but for the start. */
  function Found(g: Graph, id: Id): seq<Id> {
    StoredOf(g, Tail(Queued(g, SearchStart(g, id))))
  }

  function Tail(ids: seq<Id>): seq<Id> {
    if ids == [] then [] else ids[1..]
  }

  lemma {:induction false} TailAppend(g: Graph, ids: seq<Id>, more: seq<Id>)
    requires ids != []
    ensures Listed(g, Tail(ids + more)) == Listed(g, Tail(ids)) + Listed(g, more)
  {
    assert (ids + more)[1..] == ids[1..] + more;
    ListedAppend(g, ids[1..], more);
  }

  lemma {:induction false} RestAppend(ids: seq<Id>, k: nat, more: seq<Id>)
    requires k < |ids|
    ensures ids[k..][1..] == ids[k + 1..] && (ids + more)[k + 1..] == ids[k + 1..] + more
  {
  }

  /** One turn at a node that is visited for the first time. */
  lemma {:induction false} NewTurn(g: Graph, s: Search, rest: seq<Id>)
    requires s.k < |s.queued| && s.queued[s.k] in s.left && s.queued[s.k] in g
    requires rest == Unvisited(g[s.queued[s.k]].children, s.visited + {s.queued[s.k]})
    ensures Turn(g, s).queued == s.queued + rest
    ensures Listed(g, Tail(s.queued + rest)) == Listed(g, Tail(s.queued)) + Listed(g, rest)
  {
    TailAppend(g, s.queued, rest);
  }

  /** A property of searches, and that a turn keeps it. */
  type Progress = Search -> bool

  predicate TurnKeeps(g: Graph, P: Progress, s: Search) {
    P(s) ==> s.k <= |s.queued| && (s.k < |s.queued| ==> P(Turn(g, s)))
  }

  /** What every turn keeps holds at the end. */
  lemma {:induction false} SearchInduction(g: Graph, P: Progress, s: Search) returns (end: Search)
    requires P(s) && forall r {:trigger TurnKeeps(g, P, r)} :: TurnKeeps(g, P, r)
    ensures P(end) && end.k == |end.queued| && end.queued == Queued(g, s)
    decreases s.left, |s.queued| - s.k
  {
    assert TurnKeeps(g, P, s);
    if s.k < |s.queued| {
      end := SearchInduction(g, P, Turn(g, s));
    } else {
      end := s;
    }
  }

  // ---- What the search finds ---------------------------------------------------------

  /** Everything queued was reached from `id`, which is queued once. */
  ghost predicate Reached(g: Graph, id: Id, queued: seq<Id>) {
    && queued != [] && queued[0] == id && id !in queued[1..]
    && (forall x :: x in queued && x in g ==> Below(g, id, x))
  }

  /** All children of a node are queued, if it is stored. */
  predicate Expanded(g: Graph, x: Id, queued: seq<Id>) {
    x in g ==> forall c :: c in g[x].children ==> c in queued
  }

  predicate ExpandedUpTo(g: Graph, queued: seq<Id>, k: nat)
    requires k <= |queued|
  {
    forall j :: 0 <= j < k ==> Expanded(g, queued[j], queued)
  }

  /** What was taken is visited, and what is stored besides is left. */
  ghost predicate Visits(g: Graph, s: Search) {
    && s.k <= |s.queued| && (s.k == 0 ==> |s.queued| == 1)
    && (forall v :: v in s.visited <==> v in s.queued[..s.k])
    && (forall v :: v in s.left <==> v in g && v !in s.visited)
  }

  lemma {:induction false} VisitsNext(g: Graph, s: Search)
    requires Visits(g, s) && s.k < |s.queued|
    ensures Visits(g, Turn(g, s)) && Turn(g, s).k == s.k + 1 && s.queued <= Turn(g, s).queued
    ensures Turn(g, s).queued[..s.k + 1] == s.queued[..s.k] + [s.queued[s.k]]
  {
    assert Turn(g, s).queued[..s.k + 1] == s.queued[..s.k] + [s.queued[s.k]];
  }

  lemma {:induction false} StillVisits(g: Graph, s: Search)
    requires Visits(g, s) && s.k < |s.queued|
    ensures Visits(g, Turn(g, s))
  {
    VisitsNext(g, s);
  }

  lemma {:induction false} ReachedNext(g: Graph, id: Id, s: Search)
    requires Reached(g, id, s.queued) && Visits(g, s) && s.k < |s.queued|
    ensures Reached(g, id, Turn(g, s).queued)
  {
    var current := s.queued[s.k];
    if current in s.left {
      var (children, visited) := (g[current].children, s.visited + {current});
      var more := s.queued + Unvisited(children, visited);
      assert more[1..] == s.queued[1..] + Unvisited(children, visited);
      assert id in visited by {
        assert s.k > 0 ==> s.queued[..s.k][0] == id;
      }
      UnvisitedMembers(children, visited, id);
      forall x | x in more && x in g
        ensures Below(g, id, x)
      {
        UnvisitedMembers(children, visited, x);
        if x in children {
          assert current in s.queued;
          BelowChild(g, id, current, x);
        }
      }
    }
  }

  /** The id taken is expanded now, or was when it was first visited. */
  lemma {:induction false} ExpandedNow(g: Graph, s: Search)
    requires Visits(g, s) && ExpandedUpTo(g, s.queued, s.k) && s.k < |s.queued|
    ensures Expanded(g, s.queued[s.k], Turn(g, s).queued)
  {
    var current := s.queued[s.k];
    if current in s.visited {
      var j :| 0 <= j < s.k && s.queued[..s.k][j] == current;
      assert Expanded(g, s.queued[j], s.queued);
    } else if current in g {
      var (children, visited) := (g[current].children, s.visited + {current});
      forall c | c in children
        ensures c in s.queued + Unvisited(children, visited)
      {
        UnvisitedMembers(children, visited, c);
        assert c in s.visited ==> c in s.queued[..s.k];
      }
    }
  }

  lemma {:induction false} ExpandedNext(g: Graph, s: Search)
    requires Visits(g, s) && ExpandedUpTo(g, s.queued, s.k) && s.k < |s.queued|
    ensures ExpandedUpTo(g, Turn(g, s).queued, s.k + 1)
  {
    var more := Turn(g, s).queued;
    VisitsNext(g, s);
    ExpandedNow(g, s);
    forall j | 0 <= j < s.k + 1
      ensures Expanded(g, more[j], more)
    {
      assert j < s.k ==> Expanded(g, s.queued[j], s.queued);
      assert forall c :: c in s.queued ==> c in more;
    }
  }

  ghost predicate Finding(g: Graph, id: Id, s: Search) {
    Reached(g, id, s.queued) && Visits(g, s) && ExpandedUpTo(g, s.queued, s.k)
  }

  lemma {:induction false} SearchEnds(g: Graph, id: Id)
    ensures var all := Queued(g, SearchStart(g, id)); Reached(g, id, all) && ExpandedUpTo(g, all, |all|)
  {
    var P: Progress := s => Finding(g, id, s);
    forall s
      ensures TurnKeeps(g, P, s)
    {
      if Finding(g, id, s) && s.k < |s.queued| {
        VisitsNext(g, s);
        ReachedNext(g, id, s);
        ExpandedNext(g, s);
      }
    }
    if id in g {
      assert ChildLinks(g, id, [id]);
    }
    var end := SearchInduction(g, P, SearchStart(g, id));
  }

  lemma {:induction false} SearchReaches(g: Graph, id: Id, queued: seq<Id>, ids: seq<Id>)
    requires Reached(g, id, queued) && ExpandedUpTo(g, queued, |queued|) && ChildLinks(g, id, ids)
    ensures ids[|ids| - 1] in queued
    decreases |ids|
  {
    var n := |ids| - 1;
    if n > 0 {
      SearchReaches(g, id, queued, ids[..n]);
      var j :| 0 <= j < |queued| && queued[j] == ids[n - 1];
      assert Expanded(g, queued[j], queued);
    }
  }

  /** On any graph the search finds exactly the stored ids below its start. */
  lemma {:induction false} FoundIsBelow(g: Graph, id: Id, x: Id)
    ensures x in Found(g, id) <==> x != id && Below(g, id, x)
  {
    SearchEnds(g, id);
    var all := Queued(g, SearchStart(g, id));
    StoredMembers(g, all[1..], x);
    assert all == [id] + all[1..];
    if Below(g, id, x) {
      var ids :| ChildLinks(g, id, ids) && ids[|ids| - 1] == x;
      SearchReaches(g, id, all, ids);
    }
  }

  // ---- The search in a forest --------------------------------------------------------

  /** Different ids, the first not below the second. */
  predicate NotBelow(depth: map<Id, nat>, queued: seq<Id>, i: nat, j: nat)
    requires i < |queued| && j < |queued|
  {
    && queued[i] in depth && queued[j] in depth
    && queued[i] != queued[j] && depth[queued[i]] <= depth[queued[j]]
  }

  /** Stored ids, none of them twice, higher nodes first. */
  ghost predicate Sorted(g: Graph, depth: map<Id, nat>, queued: seq<Id>) {
    && (forall j :: 0 <= j < |queued| ==> queued[j] in g)
    && (forall i, j {:trigger NotBelow(depth, queued, i, j)} :: 0 <= i < j < |queued| ==> NotBelow(depth, queued, i, j))
  }

  /** What is queued at position j hangs below a visited node. */
  predicate Hung(g: Graph, queued: seq<Id>, k: nat, j: nat)
    requires k <= |queued| && j < |queued| && queued[j] in g
  {
    g[queued[j]].parentId.Some? && g[queued[j]].parentId.value in queued[..k]
  }

  /** Nothing is queued more than a level below the node last visited, and everything but the start
      hangs below a visited node. */
  ghost predicate Layered(g: Graph, depth: map<Id, nat>, queued: seq<Id>, k: nat)
    requires Forest(g, depth)
  {
    && Sorted(g, depth, queued) && k <= |queued|
    && (k > 0 ==> forall j :: 0 <= j < |queued| ==> depth[queued[j]] <= depth[queued[k - 1]] + 1)
    && (forall j {:trigger Hung(g, queued, k, j)} :: 0 < j < |queued| ==> Hung(g, queued, k, j))
  }

  ghost predicate InLayers(g: Graph, depth: map<Id, nat>, s: Search) {
    Forest(g, depth) && Layered(g, depth, s.queued, s.k) && Visits(g, s)
  }

  lemma {:induction false} NextIsNew(g: Graph, depth: map<Id, nat>, queued: seq<Id>, k: nat)
    requires Sorted(g, depth, queued) && k < |queued|
    ensures queued[k] in g && queued[k] !in queued[..k]
  {
    forall i | 0 <= i < k
      ensures queued[..k][i] != queued[k]
    {
      assert NotBelow(depth, queued, i, k);
    }
  }

  /** The children of the next node are one level below it and not queued yet. */
  lemma {:induction false} ChildIsNew(g: Graph, depth: map<Id, nat>, queued: seq<Id>, k: nat, c: Id)
    requires Forest(g, depth) && Layered(g, depth, queued, k) && k < |queued| && c in g[queued[k]].children
    ensures c !in queued && c in g && g[c].parentId == Some(queued[k]) && depth[c] == depth[queued[k]] + 1
  {
    assert LinkedDown(g, queued[k]) && LinkedUp(g, depth, c);
    NextIsNew(g, depth, queued, k);
    forall j | 0 <= j < |queued|
      ensures queued[j] != c
    {
      assert j > 0 ==> Hung(g, queued, k, j);
      assert 0 < k ==> NotBelow(depth, queued, 0, k);
    }
  }

  lemma {:induction false} NothingVisited(children: seq<Id>, visited: set<Id>)
    requires forall c :: c in children ==> c !in visited
    ensures Unvisited(children, visited) == children
  {
    if children != [] {
      var n := |children| - 1;
      assert children[n] in children && children == children[..n] + [children[n]];
      NothingVisited(children[..n], visited);
      assert Unvisited(children, visited) == Unvisited(children[..n], visited) + [children[n]];
    }
  }

  lemma {:induction false} SortedAppend(g: Graph, depth: map<Id, nat>, queued: seq<Id>, children: seq<Id>, level: nat)
    requires Forest(g, depth) && Sorted(g, depth, queued)
    requires forall j :: 0 <= j < |queued| ==> depth[queued[j]] <= level
    requires forall j :: 0 <= j < |children| ==> children[j] in g && children[j] !in queued && depth[children[j]] == level
    requires forall i, j :: 0 <= i < j < |children| ==> children[i] != children[j]
    ensures Sorted(g, depth, queued + children)
  {
    var more := queued + children;
    forall i, j | 0 <= i < j < |more|
      ensures NotBelow(depth, more, i, j)
    {
      if j >= |queued| {
        assert more[j] == children[j - |queued|];
        assert i >= |queued| ==> more[i] == children[i - |queued|];
        assert i < |queued| ==> more[i] == queued[i] && queued[i] in queued;
      } else {
        assert NotBelow(depth, queued, i, j);
      }
    }
  }

  lemma {:induction false} LayerExpands(g: Graph, depth: map<Id, nat>, queued: seq<Id>, k: nat)
    requires Forest(g, depth) && Layered(g, depth, queued, k) && k < |queued| && (k == 0 ==> |queued| == 1)
    ensures Layered(g, depth, queued + g[queued[k]].children, k + 1)
  {
    var (children, level) := (g[queued[k]].children, depth[queued[k]] + 1);
    var more := queued + children;
    assert LinkedDown(g, queued[k]) && more[..k + 1] == queued[..k] + [queued[k]];
    forall j | 0 <= j < |children|
      ensures children[j] !in queued && children[j] in g && g[children[j]].parentId == Some(queued[k])
      ensures depth[children[j]] == level
    {
      ChildIsNew(g, depth, queued, k, children[j]);
    }
    assert k > 0 ==> NotBelow(depth, queued, k - 1, k);
    SortedAppend(g, depth, queued, children, level);
    forall j | 0 <= j < |more|
      ensures depth[more[j]] <= level
      ensures j > 0 ==> Hung(g, more, k + 1, j)
    {
      if j >= |queued| {
        assert more[j] == children[j - |queued|];
      } else {
        assert more[j] == queued[j] && (j > 0 ==> Hung(g, queued, k, j));
      }
    }
  }

  /** In a forest a search queues all children of what it visits. */
  lemma {:induction false} AllChildrenQueued(g: Graph, depth: map<Id, nat>, s: Search)
    requires InLayers(g, depth, s) && s.k < |s.queued|
    ensures s.queued[s.k] in g && Turn(g, s).queued == s.queued + g[s.queued[s.k]].children
  {
    NextIsNew(g, depth, s.queued, s.k);
    var (current, children) := (s.queued[s.k], g[s.queued[s.k]].children);
    assert forall v :: v in s.visited + {current} ==> v in s.queued;
    forall c | c in children
      ensures c !in s.visited + {current}
    {
      ChildIsNew(g, depth, s.queued, s.k, c);
    }
    NothingVisited(children, s.visited + {current});
  }

  lemma {:induction false} LayersNext(g: Graph, depth: map<Id, nat>, s: Search)
    requires InLayers(g, depth, s) && s.k < |s.queued|
    ensures Layered(g, depth, Turn(g, s).queued, Turn(g, s).k)
  {
    AllChildrenQueued(g, depth, s);
    LayerExpands(g, depth, s.queued, s.k);
  }

  lemma {:induction false} InLayersNext(g: Graph, depth: map<Id, nat>, s: Search)
    requires InLayers(g, depth, s) && s.k < |s.queued|
    ensures InLayers(g, depth, Turn(g, s))
  {
    LayersNext(g, depth, s);
    StillVisits(g, s);
  }

  lemma {:induction false} LayersEnd(g: Graph, depth: map<Id, nat>, id: Id)
    requires Forest(g, depth) && id in g
    ensures Sorted(g, depth, Queued(g, SearchStart(g, id)))
  {
    var P: Progress := s => InLayers(g, depth, s);
    forall s
      ensures TurnKeeps(g, P, s)
    {
      if InLayers(g, depth, s) && s.k < |s.queued| {
        InLayersNext(g, depth, s);
      }
    }
    var end := SearchInduction(g, P, SearchStart(g, id));
  }

  lemma {:induction false} SortedTail(g: Graph, depth: map<Id, nat>, queued: seq<Id>)
    requires Forest(g, depth) && Sorted(g, depth, queued) && queued != []
    ensures StoredOf(g, Tail(queued)) == queued[1..] && Sorted(g, depth, queued[1..])
  {
    forall x | x in queued[1..]
      ensures x in g
    {
      var m :| 0 <= m < |queued[1..]| && queued[1..][m] == x;
      assert queued[m + 1] in g;
    }
    StoredAll(g, queued[1..]);
    forall i, j | 0 <= i < j < |queued[1..]|
      ensures NotBelow(depth, queued[1..], i, j)
    {
      assert NotBelow(depth, queued, i + 1, j + 1);
    }
  }

  /** In a forest the search finds each node once, the higher ones first. */
  lemma {:induction false} FoundInForest(g: Graph, depth: map<Id, nat>, id: Id)
    requires Forest(g, depth) && id in g
    ensures Sorted(g, depth, Found(g, id))
  {
    LayersEnd(g, depth, id);
    SortedTail(g, depth, Queued(g, SearchStart(g, id)));
  }

  predicate AllStored(g: Graph, ids: seq<Id>) {
    forall k :: 0 <= k < |ids| ==> ids[k] in g
  }

  /** The children of a list of nodes, in order. */
  function ChildrenOf(g: Graph, ids: seq<Id>): seq<Id>
    requires AllStored(g, ids)
  {
    if ids == [] then [] else g[ids[0]].children + ChildrenOf(g, ids[1..])
  }

  lemma {:induction false} ChildrenOfSnoc(g: Graph, ids: seq<Id>, last: Id)
    requires AllStored(g, ids) && last in g
    ensures AllStored(g, ids + [last])
    ensures ChildrenOf(g, ids + [last]) == ChildrenOf(g, ids) + g[last].children
  {
    if ids == [] {
      assert [] + [last] == [last];
    } else {
      assert (ids + [last])[1..] == ids[1..] + [last];
      ChildrenOfSnoc(g, ids[1..], last);
    }
  }

  /** A level, the level below it, and so on down to the last. */
  ghost predicate Levels(g: Graph, level: seq<Id>, all: seq<Id>)
    decreases |all|
  {
    && AllStored(g, level) && level <= all && (level == [] ==> all == [])
    && (level != [] ==> Levels(g, ChildrenOf(g, level), all[|level|..]))
  }

  lemma {:induction false} QueuedExtends(g: Graph, s: Search)
    ensures s.queued <= Queued(g, s)
    decreases s.left, |s.queued| - s.k
  {
    if s.k < |s.queued| {
      QueuedExtends(g, Turn(g, s));
    }
  }

  /** Taking the first of the rest puts its children behind those of what is done. */
  lemma {:induction false} RestTurn(g: Graph, queued: seq<Id>, k: nat, done: seq<Id>, rest: seq<Id>)
    requires rest != [] && AllStored(g, done) && AllStored(g, rest)
    requires k <= |queued| && queued[k..] == rest + ChildrenOf(g, done)
    ensures k < |queued| && queued[k] == rest[0] && AllStored(g, done + [rest[0]])
    ensures (queued + g[rest[0]].children)[k + 1..] == rest[1..] + ChildrenOf(g, done + [rest[0]])
  {
    assert queued[k..][0] == rest[0];
    ChildrenOfSnoc(g, done, rest[0]);
    RestAppend(queued, k, g[rest[0]].children);
    assert queued[k..][1..] == rest[1..] + ChildrenOf(g, done);
  }

  /** From position k on, the rest of a level and then, level by level, everything below it, where
      `done` of the level came before. */
  ghost predicate RestLevels(g: Graph, all: seq<Id>, k: nat, done: seq<Id>, rest: seq<Id>) {
    && k <= |all| && rest <= all[k..]
    && AllStored(g, done + rest) && Levels(g, ChildrenOf(g, done + rest), all[k + |rest|..])
  }

  lemma {:induction false} RestAfterTurn(g: Graph, all: seq<Id>, k: nat, done: seq<Id>, rest: seq<Id>)
    requires rest != [] && k < |all| && all[k] == rest[0]
    requires RestLevels(g, all, k + 1, done + [rest[0]], rest[1..])
    ensures RestLevels(g, all, k, done, rest)
  {
    assert done + [rest[0]] + rest[1..] == done + rest;
    assert all[k..] == [all[k]] + all[k + 1..] && rest == [rest[0]] + rest[1..];
  }

  lemma {:induction false} RestAtLevelEnd(g: Graph, all: seq<Id>, k: nat, done: seq<Id>)
    requires AllStored(g, done) && RestLevels(g, all, k, [], ChildrenOf(g, done)) && ChildrenOf(g, done) != []
    ensures RestLevels(g, all, k, done, [])
  {
    var level := ChildrenOf(g, done);
    assert done + [] == done && [] + level == level;
    assert all[k..][|level|..] == all[k + |level|..];
  }

  lemma {:induction false} LevelStarts(g: Graph, queued: seq<Id>, k: nat, done: seq<Id>)
    requires k <= |queued| && AllStored(g, queued) && AllStored(g, done) && queued[k..] == [] + ChildrenOf(g, done)
    ensures AllStored(g, ChildrenOf(g, done))
    ensures queued[k..] == ChildrenOf(g, done) + ChildrenOf(g, [])
  {
    assert queued[k..] == ChildrenOf(g, done);
  }

  lemma {:induction false} NothingBelow(g: Graph, queued: seq<Id>, k: nat, done: seq<Id>)
    requires k <= |queued| && AllStored(g, done) && queued[k..] == [] + ChildrenOf(g, done) && ChildrenOf(g, done) == []
    ensures k == |queued| && RestLevels(g, queued, k, done, [])
  {
    assert queued[k..] == [] && done + [] == done;
  }

  /** Where P holds, only stored ids are queued, and a turn takes one that is left and queues all of its
      children. */
  predicate TurnExpands(g: Graph, P: Progress, s: Search) {
    P(s) ==>
      && s.k <= |s.queued| && AllStored(g, s.queued)
      && (s.k < |s.queued| ==>
            && s.queued[s.k] in s.left && P(Turn(g, s))
            && Turn(g, s).queued == s.queued + g[s.queued[s.k]].children)
  }

  lemma {:induction false} RestIsLevels(g: Graph, P: Progress, s: Search, done: seq<Id>, rest: seq<Id>)
    requires P(s) && forall r {:trigger TurnExpands(g, P, r)} :: TurnExpands(g, P, r)
    requires s.k <= |s.queued| && AllStored(g, done) && AllStored(g, rest)
    requires s.queued[s.k..] == rest + ChildrenOf(g, done)
    ensures RestLevels(g, Queued(g, s), s.k, done, rest)
    decreases s.left, |s.queued| - s.k, |done|
  {
    var all := Queued(g, s);
    assert TurnExpands(g, P, s);
    QueuedExtends(g, s);
    if rest != [] {
      RestTurn(g, s.queued, s.k, done, rest);
      RestIsLevels(g, P, Turn(g, s), done + [rest[0]], rest[1..]);
      RestAfterTurn(g, all, s.k, done, rest);
    } else if ChildrenOf(g, done) != [] {
      LevelStarts(g, s.queued, s.k, done);
      RestIsLevels(g, P, s, [], ChildrenOf(g, done));
      RestAtLevelEnd(g, all, s.k, done);
    } else {
      NothingBelow(g, s.queued, s.k, done);
    }
  }

  lemma {:induction false} ForestTurnExpands(g: Graph, depth: map<Id, nat>, s: Search)
    requires InLayers(g, depth, s)
    ensures s.k <= |s.queued| && AllStored(g, s.queued)
    ensures s.k < |s.queued| ==>
      && s.queued[s.k] in s.left && InLayers(g, depth, Turn(g, s))
      && Turn(g, s).queued == s.queued + g[s.queued[s.k]].children
  {
    if s.k < |s.queued| {
      NextIsNew(g, depth, s.queued, s.k);
      AllChildrenQueued(g, depth, s);
      InLayersNext(g, depth, s);
    }
  }

  lemma {:induction false} LevelsFromStart(g: Graph, depth: map<Id, nat>, id: Id)
    requires Forest(g, depth) && id in g && RestLevels(g, Queued(g, SearchStart(g, id)), 0, [], [id])
    ensures Levels(g, [id], [id] + Found(g, id))
  {
    var all := Queued(g, SearchStart(g, id));
    LayersEnd(g, depth, id);
    SortedTail(g, depth, all);
    assert [] + [id] == [id] && all[0..] == all && all == [id] + all[1..];
    assert ([id] + Found(g, id))[1..] == all[1..];
  }

  /** The search goes level by level: first the children of its start in order, then theirs, and so on. */
  lemma {:induction false} FoundLevelByLevel(g: Graph, depth: map<Id, nat>, id: Id)
    requires Forest(g, depth) && id in g
    ensures Levels(g, [id], [id] + Found(g, id))
  {
    var P: Progress := s => InLayers(g, depth, s);
    forall s
      ensures TurnExpands(g, P, s)
    {
      if InLayers(g, depth, s) {
        ForestTurnExpands(g, depth, s);
      }
    }
    RestIsLevels(g, P, SearchStart(g, id), [], [id]);
    LevelsFromStart(g, depth, id);
  }

  /** The search only looks at ids and children. */
  lemma {:induction false} ShapeKeepsQueued(g: Graph, h: Graph, s: Search)
    requires SameShape(g, h)
    ensures Queued(g, s) == Queued(h, s)
    decreases s.left, |s.queued| - s.k
  {
    if s.k < |s.queued| {
      ShapeKeepsQueued(g, h, Turn(g, s));
    }
  }

  lemma {:induction false} ShapeKeepsStored(g: Graph, h: Graph, ids: seq<Id>)
    requires SameShape(g, h)
    ensures StoredOf(g, ids) == StoredOf(h, ids)
  {
    if ids != [] {
      ShapeKeepsStored(g, h, ids[..|ids| - 1]);
    }
  }

  lemma {:induction false} ShapeKeepsFound(g: Graph, h: Graph, id: Id)
    requires SameShape(g, h)
    ensures Found(g, id) == Found(h, id)
  {
    ShapeKeepsQueued(g, h, SearchStart(g, id));
    ShapeKeepsStored(g, h, Tail(Queued(g, SearchStart(g, id))));
  }

  /** In a forest what a node has below it is what has the node on its chain. */
  lemma {:induction false} BelowInForest(g: Graph, depth: map<Id, nat>, id: Id, x: Id)
    requires Forest(g, depth) && id in g
    ensures Below(g, id, x) <==> x in g && OnChain(g, depth, id, x)
  {
    if Below(g, id, x) {
      var ids :| ChildLinks(g, id, ids) && ids[|ids| - 1] == x;
      LinksGoUp(g, depth, id, ids);
    }
    if x in g && OnChain(g, depth, id, x) {
      ChainGoesDown(g, depth, id, x);
    }
  }

  lemma {:induction false} LinksGoUp(g: Graph, depth: map<Id, nat>, id: Id, ids: seq<Id>)
    requires Forest(g, depth) && ChildLinks(g, id, ids)
    ensures OnChain(g, depth, id, ids[|ids| - 1])
    decreases |ids|
  {
    var n := |ids| - 1;
    if n > 0 {
      LinksGoUp(g, depth, id, ids[..n]);
      assert LinkedDown(g, ids[n - 1]);
      OnChainOfChild(g, depth, id, ids[n - 1], ids[n]);
    }
  }

  lemma {:induction false} ChainGoesDown(g: Graph, depth: map<Id, nat>, id: Id, x: Id)
    requires Forest(g, depth) && id in g && x in g && OnChain(g, depth, id, x)
    ensures Below(g, id, x)
    decreases depth[x]
  {
    assert LinkedUp(g, depth, x);
    if x == id {
      assert ChildLinks(g, id, [id]);
    } else {
      var p := g[x].parentId.value;
      OnChainOfChild(g, depth, id, p, x);
      ChainGoesDown(g, depth, id, p);
      BelowChild(g, id, p, x);
    }
  }

  /** Stored ids that end at `id`, each naming the one before as parent. */
  ghost predicate ParentLinks(g: Graph, id: Id, ids: seq<Id>) {
    && ids != [] && ids[|ids| - 1] == id
    && (forall k :: 0 <= k < |ids| ==> ids[k] in g)
    && (forall j, k :: 0 <= j < k < |ids| && k == j + 1 ==> g[ids[k]].parentId == Some(ids[j]))
  }

  /** Parent links that cannot be followed further: they start at a root, or below a node that is
      not stored. */
  ghost predicate PathUp(g: Graph, id: Id, ids: seq<Id>) {
    ParentLinks(g, id, ids) && (g[ids[0]].parentId.Some? ==> g[ids[0]].parentId.value !in g)
  }

  lemma {:induction false} LinkBelow(g: Graph, id: Id, ids: seq<Id>)
    requires ParentLinks(g, id, ids) && |ids| > 1
    ensures g[id].parentId == Some(ids[|ids| - 2]) && ParentLinks(g, ids[|ids| - 2], ids[..|ids| - 1])
  {
  }

  lemma {:induction false} PathIsUnique(g: Graph, id: Id, a: seq<Id>, b: seq<Id>)
    requires PathUp(g, id, a) && PathUp(g, id, b)
    ensures a == b
    decreases |a|
  {
    var (m, n) := (|a| - 1, |b| - 1);
    if m > 0 {
      LinkBelow(g, id, a);
    }
    if n > 0 {
      LinkBelow(g, id, b);
    }
    if m > 0 && n > 0 {
      PathIsUnique(g, a[m - 1], a[..m], b[..n]);
    }
    assert a == a[..m] + [id] && b == b[..n] + [id];
  }

  lemma {:induction false} PathPrefix(g: Graph, id: Id, ids: seq<Id>, k: nat)
    requires PathUp(g, id, ids) && 0 < k <= |ids|
    ensures PathUp(g, ids[k - 1], ids[..k])
  {
  }

  /** No id occurs twice on a path to a root. */
  lemma {:induction false} PathDistinct(g: Graph, id: Id, ids: seq<Id>, j: nat, k: nat)
    requires PathUp(g, id, ids) && j < |ids| && k < |ids| && ids[j] == ids[k]
    ensures j == k
  {
    PathPrefix(g, id, ids, j + 1);
    PathPrefix(g, id, ids, k + 1);
    PathIsUnique(g, ids[j], ids[..j + 1], ids[..k + 1]);
  }

  /** Links collected from the bottom are the end of the only path there can be. */
  lemma {:induction false} LinksEndPath(g: Graph, id: Id, ids: seq<Id>, path: seq<Id>)
    requires ParentLinks(g, id, ids) && PathUp(g, id, path)
    ensures |ids| <= |path| && ids == path[|path| - |ids|..]
    decreases |ids|
  {
    if |ids| > 1 {
      LinkBelow(g, id, ids);
      if |path| > 1 {
        LinkBelow(g, id, path);
        PathPrefix(g, id, path, |path| - 1);
        LinksEndPath(g, ids[|ids| - 2], ids[..|ids| - 1], path[..|path| - 1]);
      }
      assert ids == ids[..|ids| - 1] + [id];
    }
  }

  lemma {:induction false} LinksExtend(g: Graph, id: Id, ids: seq<Id>, above: Id)
    requires ParentLinks(g, id, ids) && above in g && g[ids[0]].parentId == Some(above)
    ensures ParentLinks(g, id, [above] + ids)
    ensures NodesOf(g, [above] + ids) == [g[above]] + NodesOf(g, ids)
  {
  }

  /** Parent links that meet one of their own nodes again have no end. */
  lemma {:induction false} RevisitHasNoPath(g: Graph, id: Id, ids: seq<Id>, path: seq<Id>)
    requires ParentLinks(g, id, ids) && g[ids[0]].parentId.Some? && g[ids[0]].parentId.value in ids
    ensures !PathUp(g, id, path)
  {
    if PathUp(g, id, path) {
      LinksEndPath(g, id, ids, path);
      var k := |path| - |ids|;
      var m :| 0 <= m < |ids| && ids[m] == g[ids[0]].parentId.value;
      assert path[k + m] == ids[m] && path[k] == ids[0];
      if k > 0 {
        PathDistinct(g, id, path, k - 1, k + m);
      }
    }
  }

  lemma {:induction false} ForestPath(g: Graph, depth: map<Id, nat>, id: Id)
    requires Forest(g, depth) && id in g
    ensures PathUp(g, id, ChainTo(g, depth, id))
  {
    var ids := ChainTo(g, depth, id);
    forall k | 0 <= k < |ids|
      ensures Rung(g, depth, ids, k)
    {
      ChainShape(g, depth, id, k);
    }
    assert Rung(g, depth, ids, 0);
    forall j, k | 0 <= j < k < |ids| && k == j + 1
      ensures g[ids[k]].parentId == Some(ids[j])
    {
      assert Rung(g, depth, ids, k);
    }
  }

  class MemoryDelegationGraphStorage {
    var nodes: Graph

    constructor ()
      ensures nodes == map[]
    {
      nodes := map[];
    }

    method RegisterNodeAtomic(node: Node) returns (ok: bool)
      requires node.children == [] && !node.revoked
      modifies this
      ensures (nodes, ok) == RegisterAtomic(old(nodes), node)
    {
      if node.parentId == Some(node.id) {
        return false;
      }
      if node.id in nodes {
        return SameRegistration(nodes[node.id], node);
      }
      if node.parentId.Some? && node.parentId.value !in nodes {
        return false;
      }
      if node.parentId.Some? {
        var parent := nodes[node.parentId.value];
        nodes := nodes[node.parentId.value := AddChild(parent, node.id)];
      }
      nodes := nodes[node.id := node];
      return true;
    }

    /** `getChain`: walks parent links up; None, a throw, exactly when they never end, and
        otherwise the nodes of the one path there is, topmost first. */
    method GetChain(id: Id) returns (chain: Option<seq<Node>>)
      ensures id !in nodes ==> chain == Some([])
      ensures id in nodes ==> (chain.Some? <==> exists ids :: PathUp(nodes, id, ids))
      ensures id in nodes ==> forall ids :: PathUp(nodes, id, ids) ==> chain == Some(NodesOf(nodes, ids))
    {
      if id !in nodes {
        return Some([]);
      }
      var found := [nodes[id]];
      var visited := {id};
      var current := nodes[id].parentId;
      ghost var ids := [id];
      while current.Some? && current.value in nodes
        invariant ParentLinks(nodes, id, ids) && found == NodesOf(nodes, ids)
        invariant current == nodes[ids[0]].parentId
        invariant visited <= nodes.Keys && forall v :: v in visited <==> v in ids
        decreases nodes.Keys - visited
      {
        var at := current.value;
        if at in visited {
          forall path
            ensures !PathUp(nodes, id, path)
          {
            RevisitHasNoPath(nodes, id, ids, path);
          }
          return None;
        }
        LinksExtend(nodes, id, ids, at);
        visited := visited + {at};
        found := [nodes[at]] + found;
        current := nodes[at].parentId;
        ids := [at] + ids;
      }
      assert PathUp(nodes, id, ids);
      forall path | PathUp(nodes, id, path)
        ensures path == ids
      {
        PathIsUnique(nodes, id, path, ids);
      }
      return Some(found);
    }

    /** The inner loop of `getDescendants`: the children to queue, and of those the stored ones. */
    method ChildrenToQueue(children: seq<Id>, visited: set<Id>) returns (rest: seq<Id>, listed: seq<Node>)
      ensures rest == Unvisited(children, visited) && listed == Listed(nodes, rest)
    {
      rest, listed := [], [];
      for n := 0 to |children|
        invariant rest == Unvisited(children[..n], visited) && listed == Listed(nodes, rest)
      {
        var childId := children[n];
        UnvisitedNext(children, visited, n);
        if childId !in visited {
          ListedSnoc(nodes, rest, childId);
          rest := rest + [childId];
          if childId in nodes {
            listed := listed + [nodes[childId]];
          }
        }
      }
      assert children[..|children|] == children;
    }

    /** `getDescendants`: breadth first over child links; FoundIsBelow and FoundInForest say what it finds. */
    method GetDescendants(id: Id) returns (descendants: seq<Node>)
      ensures descendants == NodesOf(nodes, Found(nodes, id))
    {
      descendants := [];
      var queue := [id];
      var visited: set<Id> := {};
      ghost var s := SearchStart(nodes, id);
      while queue != []
        invariant s.k <= |s.queued| && s.queued != [] && queue == s.queued[s.k..] && s.visited == visited
        invariant forall v :: v in s.left <==> v in nodes && v !in visited
        invariant Queued(nodes, s) == Queued(nodes, SearchStart(nodes, id))
        invariant descendants == Listed(nodes, Tail(s.queued))
        decreases s.left, |queue|
      {
        var currentId := queue[0];
        RestAppend(s.queued, s.k, []);
        queue := queue[1..];
        if currentId !in visited && currentId in nodes {
          var rest, listed := ChildrenToQueue(nodes[currentId].children, visited + {currentId});
          NewTurn(nodes, s, rest);
          RestAppend(s.queued, s.k, rest);
          queue, descendants := queue + rest, descendants + listed;
        }
        visited, s := visited + {currentId}, Turn(nodes, s);
      }
      ListedIsStored(nodes, Tail(s.queued));
    }
  }

  // ---- The manager -------------------------------------------------------------------

  class DelegationGraphManager {
    const storage: MemoryDelegationGraphStorage
    /** Whether the provider stores the `revoked` field of a node. */
    const persistsRevoked: bool
    ghost var depth: map<Id, nat>

    ghost predicate Valid()
      reads this, storage
    {
      Forest(storage.nodes, depth)
    }

    constructor (persistsRevoked: bool)
      ensures Valid() && fresh(storage) && storage.nodes == map[] && this.persistsRevoked == persistsRevoked
    {
      storage := new MemoryDelegationGraphStorage();
      this.persistsRevoked := persistsRevoked;
      depth := map[];
    }

    method RegisterDelegation(node: Node) returns (answer: Registration)
      requires Valid() && node.children == [] && !node.revoked
      modifies this`depth, storage
      ensures Valid() && depth == DepthAfter(old(storage.nodes), old(depth), node)
      ensures (storage.nodes, answer) == Register(old(storage.nodes), node)
    {
      RegisterKeepsForest(storage.nodes, depth, node);
      depth := DepthAfter(storage.nodes, depth, node);
      if node.parentId == Some(node.id) {
        return OwnParent;
      }
      if node.parentId.Some? && node.parentId.value !in storage.nodes {
        return ParentNotFound;
      }
      if node.id in storage.nodes {
        var existing := storage.nodes[node.id];
        return if SameRegistration(existing, node) then Registered(existing) else AlreadyRegistered;
      }
      var _ := storage.RegisterNodeAtomic(node);
      return Registered(node);
    }

    /** Whether the stored node now carries the mark; None when there is no such node. */
    method SetRevoked(id: Id, revoked: bool) returns (recorded: Option<bool>)
      modifies storage
      ensures old(Valid()) ==> Valid()
      ensures recorded.None? <==> id !in old(storage.nodes)
      ensures storage.nodes ==
        if recorded.None? then old(storage.nodes) else SetMark(old(storage.nodes), id, revoked, persistsRevoked)
      ensures recorded.Some? ==> recorded.value == (persistsRevoked || !revoked)
    {
      if id !in storage.nodes {
        return None;
      }
      if Forest(storage.nodes, depth) {
        ShapeKeepsForest(storage.nodes, SetMark(storage.nodes, id, revoked, persistsRevoked), depth);
      }
      var node := storage.nodes[id];
      storage.nodes := storage.nodes[id := node.(revoked := persistsRevoked && revoked)];
      return Some(storage.nodes[id].revoked == revoked);
    }

    /** `validateChain`: exactly whether each node on the path up was issued by the subject of the
        one above it; None, a throw, on parent links that never end. */
    method ValidateChain(id: Id) returns (valid: Option<bool>)
      requires Keyed(storage.nodes)
      ensures id !in storage.nodes ==> valid == Some(false)
      ensures id in storage.nodes ==> (valid.Some? <==> exists ids :: PathUp(storage.nodes, id, ids))
      ensures forall ids :: PathUp(storage.nodes, id, ids) ==> valid == Some(Continuous(storage.nodes, ids))
    {
      var found := storage.GetChain(id);
      if id !in storage.nodes {
        return Some(false);
      }
      if found.None? {
        return None;
      }
      var chain := found.value;
      ghost var path :| PathUp(storage.nodes, id, path);
      forall ids | PathUp(storage.nodes, id, ids)
        ensures ids == path
      {
        PathIsUnique(storage.nodes, id, ids, path);
      }
      for i := 1 to |chain|
        invariant forall j :: 0 < j < i ==> chain[j].issuerDid == chain[j - 1].subjectDid
      {
        assert storage.nodes[path[i]].parentId == Some(path[i - 1]);
        if chain[i].issuerDid != chain[i - 1].subjectDid || chain[i].parentId != Some(chain[i - 1].id) {
          return Some(false);
        }
      }
      return Some(true);
    }

    /** `removeDelegation`: it asks nothing about children, and it writes twice. */
    method RemoveDelegation(id: Id, unlink: Write, delete: Write)
      requires Valid()
      modifies this`depth, storage
      ensures storage.nodes == Removal(old(storage.nodes), id, unlink, delete)
      ensures Valid() <==> !RemovalBreaks(old(storage.nodes), id, unlink, delete)
      ensures (exists d :: Forest(storage.nodes, d)) ==> Valid()
    {
      RemovalKeepsForestExactly(storage.nodes, depth, id, unlink, delete);
      if id !in storage.nodes {
        return;
      }
      if Deletes(storage.nodes, id, unlink, delete) {
        depth := depth - {id};
      }
      var node := storage.nodes[id];
      if node.parentId.Some? && node.parentId.value in storage.nodes {
        if TakesEffect(unlink) {
          var parent := storage.nodes[node.parentId.value];
          storage.nodes := storage.nodes[node.parentId.value := parent.(children := Without(parent.children, id))];
        }
        if unlink.Throws? {
          return;
        }
      }
      if TakesEffect(delete) {
        storage.nodes := storage.nodes - {id};
      }
    }
  }

  ghost predicate Continuous(g: Graph, ids: seq<Id>)
    requires forall k :: 0 <= k < |ids| ==> ids[k] in g
  {
    forall j :: 0 < j < |ids| ==> g[ids[j]].issuerDid == g[ids[j - 1]].subjectDid
  }
}
