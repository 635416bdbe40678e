/** Registrations that overlap `setRevoked` of src/delegation/delegation-graph.ts: it reads a node,
    waits, and writes the whole node back. The provider keeps marks and nothing is removed. */
module GraphOverlap {
  import opened Wrappers
  import opened DelegationGraph

  /** One `setRevoked` call: not yet read, holding the node it read, or over. */
  datatype Phase = Issued | HasRead(node: Node) | Over

  datatype Call = Call(id: Id, revoked: bool, phase: Phase)

  datatype State = State(nodes: Graph, calls: seq<Call>)

  datatype Step = RegisterNode(node: Node) | Begin(id: Id, revoked: bool) | ReadNode(c: nat) | WriteNode(c: nat)

  const Start := State(map[], [])

  function Next(s: State, step: Step): Option<State> {
    match step
    case RegisterNode(node) => Some(s.(nodes := RegisterAtomic(s.nodes, node).0))
    case Begin(id, revoked) => Some(s.(calls := s.calls + [Call(id, revoked, Issued)]))
    case ReadNode(c) =>
      if c < |s.calls| && s.calls[c].phase.Issued? then
        var id := s.calls[c].id;
        Some(s.(calls := s.calls[c := s.calls[c].(phase := if id in s.nodes then HasRead(s.nodes[id]) else Over)]))
      else None
    case WriteNode(c) =>
      if c < |s.calls| && s.calls[c].phase.HasRead? then
        var call := s.calls[c];
        Some(State(s.nodes[call.id := call.phase.node.(revoked := call.revoked)], s.calls[c := call.(phase := Over)]))
      else None
  }

  function RunFrom(s: State, steps: seq<Step>): Option<State>
    decreases |steps|
  {
    if steps == [] then Some(s)
    else
      var next := Next(s, steps[0]);
      if next.None? then None else RunFrom(next.value, steps[1..])
  }

  predicate ParentStored(g: Graph, id: Id) {
    id in g && g[id].parentId.Some? ==> g[id].parentId.value in g
  }

  ghost predicate ParentsStored(g: Graph) {
    forall id {:trigger ParentStored(g, id)} :: ParentStored(g, id)
  }

  /** What holds whatever overlaps: parents are stored, and a node that some call holds still hangs
      where it hung when it was read. */
  ghost predicate Inv(s: State) {
    && (forall id :: id in s.nodes ==> s.nodes[id].id == id)
    && ParentsStored(s.nodes)
    && (forall c :: 0 <= c < |s.calls| && s.calls[c].phase.HasRead? ==>
          && s.calls[c].id in s.nodes && s.calls[c].phase.node.id == s.calls[c].id
          && s.calls[c].phase.node.parentId == s.nodes[s.calls[c].id].parentId)
  }

  /** Stored nodes stay stored, under the same parent. */
  ghost predicate Anchored(g: Graph, h: Graph) {
    forall id :: id in g ==> id in h && h[id].parentId == g[id].parentId
  }

  lemma {:induction false} StepKeepsInv(s: State, step: Step)
    requires Inv(s) && Next(s, step).Some?
    ensures Inv(Next(s, step).value) && Anchored(s.nodes, Next(s, step).value.nodes)
  {
    var after := Next(s, step).value;
    forall id
      ensures ParentStored(after.nodes, id)
    {
      assert ParentStored(s.nodes, id);
    }
  }

  predicate Marked(s: State, id: Id) {
    id in s.nodes && s.nodes[id].revoked
  }

  /** A write that takes a node's mark away. */
  predicate Unmarks(s: State, step: Step, id: Id) {
    step.WriteNode? && step.c < |s.calls| && s.calls[step.c].id == id && !s.calls[step.c].revoked
  }

  /** A mark outlives a step exactly when the step is not such a write. */
  lemma {:induction false} MarkOutlivesStep(s: State, step: Step, id: Id)
    requires Inv(s) && Next(s, step).Some? && Marked(s, id)
    ensures Marked(Next(s, step).value, id) <==> !Unmarks(s, step, id)
  {
  }

  ghost predicate NeverUnmarked(s: State, steps: seq<Step>, id: Id)
    decreases |steps|
  {
    steps == [] || Next(s, steps[0]).None?
    || (!Unmarks(s, steps[0], id) && NeverUnmarked(Next(s, steps[0]).value, steps[1..], id))
  }

  /** Paths only grow by new nodes: what a stored node has above it never changes. */
  lemma {:induction false} AnchoredPath(s: State, t: State, id: Id, ids: seq<Id>)
    requires Inv(s) && Anchored(s.nodes, t.nodes) && PathUp(s.nodes, id, ids)
    ensures PathUp(t.nodes, id, ids)
  {
    assert ParentStored(s.nodes, ids[0]);
  }

  lemma {:induction false} RunKeeps(s: State, steps: seq<Step>, id: Id)
    requires Inv(s) && RunFrom(s, steps).Some?
    ensures Inv(RunFrom(s, steps).value) && Anchored(s.nodes, RunFrom(s, steps).value.nodes)
    ensures Marked(s, id) && NeverUnmarked(s, steps, id) ==> Marked(RunFrom(s, steps).value, id)
    decreases |steps|
  {
    if steps != [] {
      StepKeepsInv(s, steps[0]);
      if Marked(s, id) && !Unmarks(s, steps[0], id) {
        MarkOutlivesStep(s, steps[0], id);
      }
      RunKeeps(Next(s, steps[0]).value, steps[1..], id);
    }
  }

  /** However registrations and `setRevoked` calls overlap, once a node is marked and until a call
      clears that mark, every node with it on its path carries a mark on its path: those stored
      then, whose paths never change, and those registered later. */
  lemma {:induction false} OverlapKeepsRevocation(s: State, steps: seq<Step>, id: Id, x: Id, ids: seq<Id>)
    requires Inv(s) && Marked(s, id) && NeverUnmarked(s, steps, id) && RunFrom(s, steps).Some?
    requires PathUp(s.nodes, x, ids) || PathUp(RunFrom(s, steps).value.nodes, x, ids)
    requires id in ids
    ensures var t := RunFrom(s, steps).value;
      PathUp(t.nodes, x, ids) && exists k :: 0 <= k < |ids| && ids[k] in t.nodes && t.nodes[ids[k]].revoked
  {
    RunKeeps(s, steps, id);
    var t := RunFrom(s, steps).value;
    if PathUp(s.nodes, x, ids) {
      AnchoredPath(s, t, x, ids);
    }
    var k :| 0 <= k < |ids| && ids[k] == id;
    assert t.nodes[ids[k]].revoked;
  }

  // ---- Child links -------------------------------------------------------------------

  /** Children and parents are inverse to each other. */
  ghost predicate Inverse(g: Graph) {
    forall p, c {:trigger Agree(g, p, c)} :: p in g ==> Agree(g, p, c)
  }

  predicate Agree(g: Graph, p: Id, c: Id)
    requires p in g
  {
    c in g[p].children <==> c in g && g[c].parentId == Some(p)
  }

  /** Everything listed is a stored child of the node that lists it. */
  predicate AreChildren(g: Graph, p: Id, listed: seq<Id>) {
    forall c :: c in listed ==> c in g && g[c].parentId == Some(p)
  }

  /** That holds of stored nodes and of those that calls hold, whatever overlaps. */
  ghost predicate ChildrenTrue(s: State) {
    && (forall p {:trigger AreChildren(s.nodes, p, s.nodes[p].children)} ::
          p in s.nodes ==> AreChildren(s.nodes, p, s.nodes[p].children))
    && (forall c :: 0 <= c < |s.calls| && s.calls[c].phase.HasRead? ==>
          AreChildren(s.nodes, s.calls[c].id, s.calls[c].phase.node.children))
  }

  ghost predicate Sound(s: State) {
    Inv(s) && ChildrenTrue(s)
  }

  lemma {:induction false} AnchoredChildren(g: Graph, h: Graph, p: Id, listed: seq<Id>)
    requires Anchored(g, h) && AreChildren(g, p, listed)
    ensures AreChildren(h, p, listed)
  {
  }

  /** What a stored node lists after a step: what it listed, what a call wrote back, or one child more. */
  lemma {:induction false} ListedAfter(s: State, step: Step, p: Id)
    requires Sound(s) && Next(s, step).Some? && p in Next(s, step).value.nodes
    requires step.RegisterNode? ==> step.node.children == []
    ensures AreChildren(Next(s, step).value.nodes, p, Next(s, step).value.nodes[p].children)
  {
    var after := Next(s, step).value;
    StepKeepsInv(s, step);
    if p in s.nodes {
      AnchoredChildren(s.nodes, after.nodes, p, s.nodes[p].children);
      if step.WriteNode? && s.calls[step.c].id == p {
        AnchoredChildren(s.nodes, after.nodes, p, s.calls[step.c].phase.node.children);
      }
    }
  }

  lemma {:induction false} StepKeepsSound(s: State, step: Step)
    requires Sound(s) && Next(s, step).Some? && (step.RegisterNode? ==> step.node.children == [])
    ensures Sound(Next(s, step).value)
  {
    var after := Next(s, step).value;
    StepKeepsInv(s, step);
    forall p | p in after.nodes
      ensures AreChildren(after.nodes, p, after.nodes[p].children)
    {
      ListedAfter(s, step, p);
    }
    forall c | 0 <= c < |after.calls| && after.calls[c].phase.HasRead?
      ensures AreChildren(after.nodes, after.calls[c].id, after.calls[c].phase.node.children)
    {
      if !(step.ReadNode? && step.c == c) {
        AnchoredChildren(s.nodes, after.nodes, s.calls[c].id, s.calls[c].phase.node.children);
      }
    }
  }

  /** Call c read every child that its node has by now. */
  predicate SeesAll(s: State, c: nat)
    requires c < |s.calls| && s.calls[c].phase.HasRead?
  {
    forall x :: x in s.nodes && s.nodes[x].parentId == Some(s.calls[c].id) ==> x in s.calls[c].phase.node.children
  }

  /** A call writes back a node that has a child which the call did not read. */
  predicate Overlooks(s: State, step: Step) {
    step.WriteNode? && step.c < |s.calls| && s.calls[step.c].phase.HasRead? && !SeesAll(s, step.c)
  }

  lemma {:induction false} RegisterKeepsInverse(g: Graph, node: Node)
    requires Inverse(g) && node.children == []
    requires ParentsStored(g)
    ensures Inverse(RegisterAtomic(g, node).0)
  {
    var after := RegisterAtomic(g, node).0;
    forall p, c | p in after
      ensures Agree(after, p, c)
    {
      assert ParentStored(g, c);
      if p in g {
        assert Agree(g, p, c);
        assert Agree(g, p, node.id);
      }
    }
  }

  /** Writing back a node that lists only children of its own keeps the inverse exactly when it lists
      all of them. */
  lemma {:induction false} WriteInverseExactly(g: Graph, id: Id, node: Node)
    requires Inverse(g) && id in g && node.parentId == g[id].parentId && AreChildren(g, id, node.children)
    ensures Inverse(g[id := node]) <==> forall x :: x in g && g[x].parentId == Some(id) ==> x in node.children
  {
    var after := g[id := node];
    if Inverse(after) {
      forall x | x in g && g[x].parentId == Some(id)
        ensures x in node.children
      {
        assert Agree(after, id, x);
      }
    }
    if forall x :: x in g && g[x].parentId == Some(id) ==> x in node.children {
      forall p, c | p in after
        ensures Agree(after, p, c)
      {
        assert Agree(g, p, c);
      }
    }
  }

  /** A step keeps children and parents inverse exactly when it overlooks no child. */
  lemma {:induction false} StepKeepsInverse(s: State, step: Step)
    requires Sound(s) && Inverse(s.nodes) && Next(s, step).Some?
    requires step.RegisterNode? ==> step.node.children == []
    ensures Inverse(Next(s, step).value.nodes) <==> !Overlooks(s, step)
  {
    match step {
      case RegisterNode(node) => RegisterKeepsInverse(s.nodes, node);
      case WriteNode(c) =>
        WriteInverseExactly(s.nodes, s.calls[c].id, s.calls[c].phase.node.(revoked := s.calls[c].revoked));
      case _ =>
    }
  }

  /** Nodes are registered without children, as the manager does. */
  predicate Childless(steps: seq<Step>) {
    forall i :: 0 <= i < |steps| && steps[i].RegisterNode? ==> steps[i].node.children == []
  }

  ghost predicate InverseThroughout(s: State, steps: seq<Step>)
    decreases |steps|
  {
    Inverse(s.nodes)
    && (steps == [] || Next(s, steps[0]).None? || InverseThroughout(Next(s, steps[0]).value, steps[1..]))
  }

  predicate NeverOverlooks(s: State, steps: seq<Step>)
    decreases |steps|
  {
    steps == [] || Next(s, steps[0]).None?
    || (!Overlooks(s, steps[0]) && NeverOverlooks(Next(s, steps[0]).value, steps[1..]))
  }

  lemma {:induction false} StaysInverseFrom(s: State, steps: seq<Step>)
    requires Sound(s) && Inverse(s.nodes) && Childless(steps)
    ensures InverseThroughout(s, steps) <==> NeverOverlooks(s, steps)
    decreases |steps|
  {
    if steps != [] && Next(s, steps[0]).Some? {
      var next := Next(s, steps[0]).value;
      StepKeepsSound(s, steps[0]);
      StepKeepsInverse(s, steps[0]);
      if Inverse(next.nodes) {
        StaysInverseFrom(next, steps[1..]);
      }
    }
  }

  /** Over every run, children and parents are inverse at every moment exactly when no write
      overlooks a child. */
  lemma {:induction false} StaysInverseExactly(steps: seq<Step>)
    requires Childless(steps)
    ensures InverseThroughout(Start, steps) <==> NeverOverlooks(Start, steps)
  {
    StaysInverseFrom(Start, steps);
  }

  /** A registration that stores a new child of the node that call c is for. */
  predicate AddsChildOf(s: State, step: Step, c: nat)
    requires c < |s.calls|
  {
    && step.RegisterNode? && step.node.parentId == Some(s.calls[c].id)
    && step.node.id !in s.nodes && RegisterAtomic(s.nodes, step.node).1
  }

  predicate NoNewChild(s: State, steps: seq<Step>, c: nat)
    requires c < |s.calls|
    decreases |steps|
  {
    steps == [] || Next(s, steps[0]).None?
    || (!AddsChildOf(s, steps[0], c) && NoNewChild(Next(s, steps[0]).value, steps[1..], c))
  }

  lemma {:induction false} StepKeepsSight(s: State, step: Step, c: nat)
    requires Sound(s) && Next(s, step).Some? && c < |s.calls| && s.calls[c].phase.HasRead? && step != WriteNode(c)
    ensures var t := Next(s, step).value;
      && c < |t.calls| && t.calls[c] == s.calls[c]
      && (SeesAll(t, c) <==> SeesAll(s, c) && !AddsChildOf(s, step, c))
  {
    var t := Next(s, step).value;
    StepKeepsInv(s, step);
    if SeesAll(t, c) {
      forall x | x in s.nodes && s.nodes[x].parentId == Some(s.calls[c].id)
        ensures x in s.calls[c].phase.node.children
      {
        assert x in t.nodes && t.nodes[x].parentId == s.nodes[x].parentId;
      }
    }
  }

  lemma {:induction false} RunKeepsSight(s: State, steps: seq<Step>, c: nat)
    requires Sound(s) && Childless(steps) && WriteNode(c) !in steps && RunFrom(s, steps).Some?
    requires c < |s.calls| && s.calls[c].phase.HasRead?
    ensures var t := RunFrom(s, steps).value;
      && c < |t.calls| && t.calls[c] == s.calls[c]
      && (SeesAll(t, c) <==> SeesAll(s, c) && NoNewChild(s, steps, c))
    decreases |steps|
  {
    if steps != [] {
      assert steps[0] in steps && forall x :: x in steps[1..] ==> x in steps;
      StepKeepsSound(s, steps[0]);
      StepKeepsSight(s, steps[0], c);
      RunKeepsSight(Next(s, steps[0]).value, steps[1..], c);
    }
  }

  /** A call that read its node while it listed all its children writes it back overlooking one
      exactly when a child of the node was registered in between. */
  lemma {:induction false} OverlooksExactly(s: State, steps: seq<Step>, c: nat)
    requires Sound(s) && Inverse(s.nodes) && Childless(steps) && WriteNode(c) !in steps
    requires c < |s.calls| && s.calls[c].phase.Issued? && s.calls[c].id in s.nodes
    requires RunFrom(Next(s, ReadNode(c)).value, steps).Some?
    ensures var held := Next(s, ReadNode(c)).value;
      Overlooks(RunFrom(held, steps).value, WriteNode(c)) <==> !NoNewChild(held, steps, c)
  {
    var held := Next(s, ReadNode(c)).value;
    StepKeepsSound(s, ReadNode(c));
    forall x | x in held.nodes && held.nodes[x].parentId == Some(held.calls[c].id)
      ensures x in held.calls[c].phase.node.children
    {
      assert Agree(s.nodes, s.calls[c].id, x);
    }
    RunKeepsSight(held, steps, c);
  }

  /** The overlap is real: a child registered between the read and the write drops out of its
      parent's children, so that a search from the parent misses it, while its own path still
      shows the parent's mark. */
  lemma {:induction false} OverlapLosesChild(parent: Node, child: Node)
    requires parent.parentId == None && parent.children == [] && !parent.revoked
    requires child.parentId == Some(parent.id) && child.id != parent.id && child.children == [] && !child.revoked
    ensures var steps := [RegisterNode(parent), Begin(parent.id, true), ReadNode(0), RegisterNode(child), WriteNode(0)];
      && RunFrom(Start, steps).Some?
      && var g := RunFrom(Start, steps).value.nodes;
      && g == map[parent.id := parent.(revoked := true), child.id := child]
      && PathUp(g, child.id, [parent.id, child.id])
  {
    var g1 := map[parent.id := parent];
    var held := [Call(parent.id, true, HasRead(parent))];
    FirstRegistration(parent);
    SecondRegistration(parent, child);
    var linked := map[parent.id := parent.(children := [child.id]), child.id := child];
    Unroll(Start, RegisterNode(parent), [Begin(parent.id, true), ReadNode(0), RegisterNode(child), WriteNode(0)]);
    Unroll(State(g1, []), Begin(parent.id, true), [ReadNode(0), RegisterNode(child), WriteNode(0)]);
    var issued := State(g1, [] + [Call(parent.id, true, Issued)]);
    assert issued.calls[0 := held[0]] == held;
    Unroll(issued, ReadNode(0), [RegisterNode(child), WriteNode(0)]);
    Unroll(State(g1, held), RegisterNode(child), [WriteNode(0)]);
    Unroll(State(linked, held), WriteNode(0), []);
    assert linked[parent.id := parent.(revoked := true)] == map[parent.id := parent.(revoked := true), child.id := child];
  }

  lemma {:induction false} FirstRegistration(parent: Node)
    requires parent.parentId == None && parent.children == [] && !parent.revoked
    ensures RegisterAtomic(map[], parent) == (map[parent.id := parent], true)
  {
  }

  lemma {:induction false} SecondRegistration(parent: Node, child: Node)
    requires parent.children == [] && child.parentId == Some(parent.id) && child.id != parent.id
    requires child.children == [] && !child.revoked
    ensures RegisterAtomic(map[parent.id := parent], child).0
         == map[parent.id := parent.(children := [child.id]), child.id := child]
  {
    assert AddChild(parent, child.id) == parent.(children := [child.id]) by {
      assert parent.children + [child.id] == [child.id];
    }
    var g := map[parent.id := parent];
    assert g[parent.id := AddChild(parent, child.id)][child.id := child]
        == map[parent.id := parent.(children := [child.id]), child.id := child];
  }

  lemma {:induction false} Unroll(s: State, step: Step, rest: seq<Step>)
    requires Next(s, step).Some?
    ensures RunFrom(s, [step] + rest) == RunFrom(Next(s, step).value, rest)
  {
    assert ([step] + rest)[1..] == rest;
  }
}
