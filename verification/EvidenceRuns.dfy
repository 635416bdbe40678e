/** Write-ahead evidence and its compensation in src/audit/recorder-service.ts: any number of
    submissions in one recorder, every `await` an interleaving point. */
module EvidenceRuns {
  import opened Wrappers
  import opened Hashing
  import opened Evidence

  type Key = nat

  /** Where one submission is, from holding its evidence to releasing it. */
  datatype Phase =
    | Persisting               // about to ask for the next item
    | Asked(existed: bool)     // `has` answered; the put comes next
    | Appending
    | Rechecking               // the append threw; about to look for a committed entry
    | Disposing(next: nat)     // nothing committed; disposing `stored` from here on
    | Leaving
    | Left

  datatype Submission = Submission(
    key: Key, items: seq<Item>,
    put: nat,                // how many items have been put
    stored: seq<Item>,       // those that did not exist before
    landed: bool,            // its append committed, or found its identity committed
    compensates: bool,       // its append threw, and its re-check found nothing committed
    phase: Phase)

  datatype State = State(store: Store, held: Holds, committed: set<Key>, submissions: seq<Submission>)

  datatype Step =
    | Begin(key: Key, items: seq<Item>)
    | AskHas(c: nat)
    | PutItem(c: nat)
    | PutFails(c: nat, applied: bool)
    | RejectEvidence(c: nat)
    | AppendReturns(c: nat)
    | AppendThrows(c: nat, applied: bool)
    | Recheck(c: nat, found: bool)  // the journal's answer, which may lag
    | RecheckThrows(c: nat)
    | DisposeNext(c: nat)
    | DisposeThrows(c: nat)
    | Release(c: nat)
    | CommitLate(c: nat)   // an append that threw takes effect only now

  const Start := State(map[], map[], {}, [])

  /** The part of a step that concerns the store, the journal's identities and one submission. */
  function Move(sha: Hasher, s: State, t: Submission, step: Step): Option<(Store, set<Key>, Submission)> {
    match (t.phase, step)
    case (Persisting, AskHas(_)) =>
      if t.put < |t.items| && t.items[t.put].ref.objectId !in Ids(t.items[..t.put]) then
        Some((s.store, s.committed, t.(phase := Asked(Present(s.store, t.items[t.put].ref.objectId)))))
      else None
    case (Persisting, RejectEvidence(_)) => Some((s.store, s.committed, t.(phase := Leaving)))
    case (Asked(existed), PutItem(_)) =>
      if t.put < |t.items| then
        var item := t.items[t.put];
        var after := Put(sha, s.store, item);
        if after.None? then Some((s.store, s.committed, t.(phase := Leaving)))
        else
          Some((after.value, s.committed,
                t.(put := t.put + 1, stored := if existed then t.stored else t.stored + [item],
                   phase := if t.put + 1 == |t.items| then Appending else Persisting)))
      else None
    case (Asked(_), PutFails(_, applied)) =>
      if t.put < |t.items| then
        var after := Put(sha, s.store, t.items[t.put]);
        Some((if applied && after.Some? then after.value else s.store, s.committed, t.(phase := Leaving)))
      else None
    case (Appending, AppendReturns(_)) =>
      Some((s.store, s.committed + {t.key}, t.(landed := true, phase := Leaving)))
    case (Appending, AppendThrows(_, applied)) =>
      Some((s.store, if applied then s.committed + {t.key} else s.committed,
            t.(landed := applied, phase := if t.stored == [] then Leaving else Rechecking)))
    case (Rechecking, Recheck(_, found)) =>
      Some((s.store, s.committed,
            t.(compensates := !found, phase := if found then Leaving else Disposing(0))))
    case (Rechecking, RecheckThrows(_)) => Some((s.store, s.committed, t.(phase := Leaving)))
    case (Disposing(next), DisposeNext(_)) =>
      if next >= |t.stored| then Some((s.store, s.committed, t.(phase := Leaving)))
      else
        var id := t.stored[next].ref.objectId;
        if id in s.held && s.held[id].shared then Some((s.store, s.committed, t.(phase := Disposing(next + 1))))
        else
          var (after, result) := Retain(s.store, Dispose(t.stored[next].ref));
          Some((after, s.committed, t.(phase := if result.LegallyHeld? then Leaving else Disposing(next + 1))))
    case (Disposing(_), DisposeThrows(_)) => Some((s.store, s.committed, t.(phase := Leaving)))
    case _ => None
  }

  function Begun(s: State, key: Key, items: seq<Item>): State {
    s.(held := Holding(s.held, Ids(items)),
       submissions := s.submissions
         + [Submission(key, items, 0, [], false, false, if items == [] then Appending else Persisting)])
  }

  function Released(s: State, c: nat): State
    requires c < |s.submissions|
  {
    s.(held := Releasing(s.held, Ids(s.submissions[c].items)),
       submissions := s.submissions[c := s.submissions[c].(phase := Left)])
  }

  /** Everything was put, and the call is past its append, which did not commit so far. */
  predicate AppendThrew(t: Submission) {
    && t.put == |t.items| && !t.landed
    && (t.phase.Rechecking? || t.phase.Disposing? || t.phase.Leaving? || t.phase.Left?)
  }

  function CommittedLate(s: State, c: nat): State
    requires c < |s.submissions|
  {
    s.(committed := s.committed + {s.submissions[c].key},
       submissions := s.submissions[c := s.submissions[c].(landed := true)])
  }

  function Next(sha: Hasher, s: State, step: Step): Option<State> {
    match step
    case Begin(key, items) =>
      Some(Begun(s, key, items))
    case Release(c) =>
      if c < |s.submissions| && s.submissions[c].phase.Leaving? then Some(Released(s, c)) else None
    case CommitLate(c) =>
      if c < |s.submissions| && AppendThrew(s.submissions[c]) then Some(CommittedLate(s, c)) else None
    case _ =>
      if step.c < |s.submissions| then
        var moved := Move(sha, s, s.submissions[step.c], step);
        if moved.None? then None
        else
          var (store, committed, t) := moved.value;
          Some(State(store, s.held, committed, s.submissions[step.c := t]))
      else None
  }

  function Run(sha: Hasher, steps: seq<Step>): Option<State> {
    if steps == [] then Some(Start)
    else
      var before := Run(sha, steps[..|steps| - 1]);
      if before.None? then None else Next(sha, before.value, steps[|steps| - 1])
  }

  // ---- Who holds what ----------------------------------------------------------------

  predicate IsHolder(t: Submission, id: ObjectId) {
    !t.phase.Left? && id in Ids(t.items)
  }

  function Holders(submissions: seq<Submission>, id: ObjectId): set<nat> {
    set c: nat | c < |submissions| && IsHolder(submissions[c], id)
  }

  /** The held table agrees with the submissions: it counts them, and an object that two of them
      hold at once is marked shared. */
  ghost predicate Counted(s: State) {
    forall id ::
      var holders := Holders(s.submissions, id);
      && (id in s.held <==> holders != {})
      && (id in s.held ==> s.held[id].holders == |holders|)
      && (|holders| >= 2 ==> s.held[id].shared)
  }

  /** Items this submission has put. */
  predicate Secured(t: Submission, id: ObjectId) {
    exists i :: 0 <= i < t.put && i < |t.items| && t.items[i].ref.objectId == id
  }

  /** Items that looked new to this submission. */
  predicate SawNew(t: Submission, id: ObjectId) {
    || (exists i :: 0 <= i < |t.stored| && t.stored[i].ref.objectId == id)
    || (t.phase.Asked? && !t.phase.existed && t.put < |t.items| && t.items[t.put].ref.objectId == id)
  }

  /** Submissions whose evidence must still be there: all but those that dispose their own. */
  predicate Guarded(t: Submission) {
    !t.compensates
  }

  ghost predicate Shaped(s: State, t: Submission) {
    && t.put <= |t.items|
    && (forall i :: 0 <= i < |t.stored| ==> t.stored[i] in t.items)
    && (t.phase.Appending? || t.phase.Rechecking? || t.landed ==> t.put == |t.items|)
    && (t.landed ==> t.key in s.committed)
    && (t.compensates ==> t.phase.Disposing? || t.phase.Leaving? || t.phase.Left?)
    && (t.phase.Disposing? ==> t.compensates)
  }

  /** An object that looked new to one submission in flight, and that another one needs, is shared. */
  predicate Fence(s: State, d: nat, t: nat, id: ObjectId)
    requires d < |s.submissions| && t < |s.submissions|
  {
    !s.submissions[d].phase.Left? && SawNew(s.submissions[d], id)
    && Guarded(s.submissions[t]) && Secured(s.submissions[t], id)
    ==> id in s.held && s.held[id].shared
  }

  ghost predicate Fenced(s: State) {
    forall d, t, id {:trigger Fence(s, d, t, id)} ::
      0 <= d < |s.submissions| && 0 <= t < |s.submissions| && d != t ==> Fence(s, d, t, id)
  }

  ghost predicate Safe(s: State) {
    forall t, id :: 0 <= t < |s.submissions| && Guarded(s.submissions[t]) && Secured(s.submissions[t], id)
      ==> Present(s.store, id)
  }

  ghost predicate Inv(s: State) {
    && (forall t :: 0 <= t < |s.submissions| ==> Shaped(s, s.submissions[t]))
    && Counted(s) && Fenced(s) && Safe(s)
  }

  lemma {:induction false} NewItemsAreHeld(s: State, d: nat, id: ObjectId)
    requires Inv(s) && d < |s.submissions| && SawNew(s.submissions[d], id)
    ensures id in Ids(s.submissions[d].items)
  {
    var t := s.submissions[d];
    assert Shaped(s, t);
    if exists i :: 0 <= i < |t.stored| && t.stored[i].ref.objectId == id {
      var i :| 0 <= i < |t.stored| && t.stored[i].ref.objectId == id;
      assert t.stored[i] in t.items;
    }
  }

  lemma {:induction false} SecuredItemsAreHeld(t: Submission, id: ObjectId)
    requires Secured(t, id)
    ensures id in Ids(t.items)
  {
    var i :| 0 <= i < t.put && i < |t.items| && t.items[i].ref.objectId == id;
  }

  /** Two holders at once mean the object is marked shared. */
  lemma {:induction false} TwoHoldersShare(s: State, a: nat, b: nat, id: ObjectId)
    requires Counted(s) && a < |s.submissions| && b < |s.submissions| && a != b
    requires IsHolder(s.submissions[a], id) && IsHolder(s.submissions[b], id)
    ensures id in s.held && s.held[id].shared && s.held[id].holders >= 2
  {
    var holders := Holders(s.submissions, id);
    assert a in holders && b in holders;
    assert {a, b} <= holders;
    assert |holders| >= |{a, b}| by { SubsetSize({a, b}, holders); }
  }

  lemma {:induction false} SubsetSize(a: set<nat>, b: set<nat>)
    requires a <= b
    ensures |a| <= |b|
  {
    if a != {} {
      var x :| x in a;
      SubsetSize(a - {x}, b - {x});
    }
  }

  function Moved(s: State, c: nat, store: Store, committed: set<Key>, t: Submission): State
    requires c < |s.submissions|
  {
    State(store, s.held, committed, s.submissions[c := t])
  }

  lemma {:induction false} MovedCounted(s: State, c: nat, store: Store, committed: set<Key>, t: Submission)
    requires Counted(s) && c < |s.submissions|
    requires t.items == s.submissions[c].items && !t.phase.Left? && !s.submissions[c].phase.Left?
    ensures Counted(Moved(s, c, store, committed, t))
  {
    var after := Moved(s, c, store, committed, t);
    forall id
      ensures Holders(after.submissions, id) == Holders(s.submissions, id)
    {
    }
  }

  /** What a move may change about its own submission without endangering anyone. */
  ghost predicate Quiet(before: Submission, after: Submission) {
    && (forall id :: SawNew(after, id) ==> SawNew(before, id))
    && (forall id :: Guarded(after) && Secured(after, id) ==> Guarded(before) && Secured(before, id))
  }

  lemma {:induction false} QuietMove(s: State, c: nat, store: Store, committed: set<Key>, t: Submission)
    requires Inv(s) && c < |s.submissions| && !s.submissions[c].phase.Left? && Quiet(s.submissions[c], t)
    requires forall id :: Present(s.store, id) ==> Present(store, id)
    ensures Fenced(Moved(s, c, store, committed, t)) && Safe(Moved(s, c, store, committed, t))
  {
    var after := Moved(s, c, store, committed, t);
    forall d, k, id | 0 <= d < |after.submissions| && 0 <= k < |after.submissions| && d != k
      ensures Fence(after, d, k, id)
    {
      assert Fence(s, d, k, id);
    }
  }

  /** An object that is not there when asked for is one nobody needs. */
  lemma {:induction false} AskMove(s: State, c: nat, t: Submission)
    requires Inv(s) && c < |s.submissions| && s.submissions[c].phase.Persisting?
    requires s.submissions[c].put < |s.submissions[c].items|
    requires var before := s.submissions[c];
      t == before.(phase := Asked(Present(s.store, before.items[before.put].ref.objectId)))
    ensures Fenced(Moved(s, c, s.store, s.committed, t)) && Safe(Moved(s, c, s.store, s.committed, t))
  {
    var after := Moved(s, c, s.store, s.committed, t);
    forall d, k, id | 0 <= d < |after.submissions| && 0 <= k < |after.submissions| && d != k
      ensures Fence(after, d, k, id)
    {
      assert Fence(s, d, k, id);
    }
  }

  lemma {:induction false} SecuredAfterPut(before: Submission, after: Submission, id: ObjectId)
    requires before.put < |before.items| && after.items == before.items && after.put == before.put + 1
    ensures Secured(after, id) <==> Secured(before, id) || id == before.items[before.put].ref.objectId
  {
    if id == before.items[before.put].ref.objectId {
      assert after.items[before.put].ref.objectId == id;
    } else if Secured(after, id) {
      var i :| 0 <= i < after.put && i < |after.items| && after.items[i].ref.objectId == id;
      assert i < before.put && before.items[i].ref.objectId == id;
    }
  }

  lemma {:induction false} NewAfterPut(before: Submission, after: Submission, id: ObjectId)
    requires before.phase.Asked? && before.put < |before.items| && !after.phase.Asked?
    requires after.stored == if before.phase.existed then before.stored else before.stored + [before.items[before.put]]
    requires SawNew(after, id)
    ensures SawNew(before, id)
  {
    var i :| 0 <= i < |after.stored| && after.stored[i].ref.objectId == id;
    if i < |before.stored| {
      assert before.stored[i].ref.objectId == id;
    }
  }

  /** A put that succeeds while another submission in flight saw the object as new happens while
      both hold it. */
  lemma {:induction false} PutMove(sha: Hasher, s: State, c: nat, store: Store, t: Submission)
    requires Inv(s) && c < |s.submissions| && s.submissions[c].phase.Asked?
    requires var before := s.submissions[c];
      && before.put < |before.items|
      && Put(sha, s.store, before.items[before.put]) == Some(store)
      && t.items == before.items && t.put == before.put + 1 && t.landed == before.landed && t.compensates == before.compensates
      && t.stored == (if before.phase.existed then before.stored else before.stored + [before.items[before.put]])
      && (t.phase.Appending? || t.phase.Persisting?)
    ensures Fenced(Moved(s, c, store, s.committed, t)) && Safe(Moved(s, c, store, s.committed, t))
  {
    var before := s.submissions[c];
    var after := Moved(s, c, store, s.committed, t);
    forall id
      ensures Secured(t, id) <==> Secured(before, id) || id == before.items[before.put].ref.objectId
      ensures SawNew(t, id) ==> SawNew(before, id)
    {
      SecuredAfterPut(before, t, id);
      if SawNew(t, id) {
        NewAfterPut(before, t, id);
      }
    }
    forall d, id | 0 <= d < |s.submissions| && d != c && !s.submissions[d].phase.Left?
      && SawNew(s.submissions[d], id) && Secured(t, id)
      ensures id in s.held && s.held[id].shared
    {
      NewItemsAreHeld(s, d, id);
      SecuredItemsAreHeld(t, id);
      TwoHoldersShare(s, c, d, id);
    }
    assert Guarded(before);
    forall d, k, id | 0 <= d < |after.submissions| && 0 <= k < |after.submissions| && d != k
      ensures Fence(after, d, k, id)
    {
      assert Fence(s, d, k, id);
    }
    assert forall id :: Present(s.store, id) ==> Present(store, id);
    assert Safe(after);
  }

  /** Disposing an object that is not marked shared strips no submission that needs it. */
  lemma {:induction false} DisposeMove(s: State, c: nat, t: Submission)
    requires Inv(s) && c < |s.submissions| && s.submissions[c].phase.Disposing?
    requires var before := s.submissions[c];
      && before.phase.next < |before.stored|
      && var id := before.stored[before.phase.next].ref.objectId;
      && !(id in s.held && s.held[id].shared)
      && t == before.(phase := t.phase) && (t.phase.Leaving? || t.phase.Disposing?)
    ensures var before := s.submissions[c];
      var store := Retain(s.store, Dispose(before.stored[before.phase.next].ref)).0;
      Fenced(Moved(s, c, store, s.committed, t)) && Safe(Moved(s, c, store, s.committed, t))
  {
    var before := s.submissions[c];
    var id := before.stored[before.phase.next].ref.objectId;
    var store := Retain(s.store, Dispose(before.stored[before.phase.next].ref)).0;
    assert SawNew(before, id);
    assert Shaped(s, before);
    assert !Guarded(t) && !Guarded(before);
    forall k | 0 <= k < |s.submissions| && k != c && Guarded(s.submissions[k])
      ensures !Secured(s.submissions[k], id)
    {
      assert Fence(s, c, k, id);
    }
    assert forall other :: other != id && Present(s.store, other) ==> Present(store, other);
    assert forall other :: SawNew(t, other) ==> SawNew(before, other);
    var after := Moved(s, c, store, s.committed, t);
    forall d, k, other | 0 <= d < |after.submissions| && 0 <= k < |after.submissions| && d != k
      ensures Fence(after, d, k, other)
    {
      assert Fence(s, d, k, other);
    }
  }

  lemma {:induction false} MoveShaped(sha: Hasher, s: State, t: Submission, step: Step)
    requires Shaped(s, t) && Move(sha, s, t, step).Some?
    ensures var (store, committed, after) := Move(sha, s, t, step).value;
      && s.committed <= committed
      && Shaped(s.(committed := committed), after)
      && after.items == t.items && !after.phase.Left? && !t.phase.Left?
  {
  }

  lemma {:induction false} MoveSafe(sha: Hasher, s: State, c: nat, step: Step)
    requires Inv(s) && c < |s.submissions| && Move(sha, s, s.submissions[c], step).Some?
    ensures var (store, committed, after) := Move(sha, s, s.submissions[c], step).value;
      Fenced(Moved(s, c, store, committed, after)) && Safe(Moved(s, c, store, committed, after))
  {
    var t := s.submissions[c];
    var (store, committed, after) := Move(sha, s, t, step).value;
    if step.AskHas? {
      AskMove(s, c, after);
    } else if step.PutItem? && Put(sha, s.store, t.items[t.put]).Some? {
      PutMove(sha, s, c, store, after);
    } else if step.DisposeNext? && store != s.store {
      DisposeMove(s, c, after);
    } else {
      QuietMove(s, c, store, committed, after);
    }
  }

  lemma {:induction false} MoveKeepsInv(sha: Hasher, s: State, c: nat, step: Step)
    requires Inv(s) && c < |s.submissions| && Move(sha, s, s.submissions[c], step).Some?
    ensures var (store, committed, after) := Move(sha, s, s.submissions[c], step).value;
      Inv(Moved(s, c, store, committed, after))
  {
    var (store, committed, after) := Move(sha, s, s.submissions[c], step).value;
    MoveShaped(sha, s, s.submissions[c], step);
    MovedCounted(s, c, store, committed, after);
    MoveSafe(sha, s, c, step);
  }

  lemma {:induction false} HoldersAfterBegin(s: State, key: Key, items: seq<Item>, id: ObjectId)
    ensures Holders(Begun(s, key, items).submissions, id) ==
      Holders(s.submissions, id) + (if id in Ids(items) then {|s.submissions|} else {})
    ensures |s.submissions| !in Holders(s.submissions, id)
  {
    var after := Begun(s, key, items).submissions;
    assert forall c :: 0 <= c < |s.submissions| ==> after[c] == s.submissions[c];
  }

  lemma {:induction false} BeginKeepsCounted(s: State, key: Key, items: seq<Item>)
    requires Counted(s)
    ensures Counted(Begun(s, key, items))
  {
    forall id
      ensures var (held, holders) := (Begun(s, key, items).held, Holders(Begun(s, key, items).submissions, id));
        && (id in held <==> holders != {})
        && (id in held ==> held[id].holders == |holders|)
        && (|holders| >= 2 ==> held[id].shared)
    {
      HoldersAfterBegin(s, key, items, id);
    }
  }

  /** A newcomer has put nothing and seen nothing as new; everyone else is as before. */
  lemma {:induction false} NewcomerIsNeutral(s: State, key: Key, items: seq<Item>, t: nat, id: ObjectId)
    requires t <= |s.submissions|
    requires Secured(Begun(s, key, items).submissions[t], id) || SawNew(Begun(s, key, items).submissions[t], id)
    ensures t < |s.submissions| && Begun(s, key, items).submissions[t] == s.submissions[t]
  {
  }

  lemma {:induction false} MarksOutliveBegins(s: State, key: Key, items: seq<Item>, id: ObjectId)
    requires id in s.held && s.held[id].shared
    ensures id in Begun(s, key, items).held && Begun(s, key, items).held[id].shared
  {
  }

  lemma {:induction false} BeginKeepsFence(s: State, key: Key, items: seq<Item>, d: nat, t: nat, id: ObjectId)
    requires Inv(s) && d <= |s.submissions| && t <= |s.submissions| && d != t
    ensures Fence(Begun(s, key, items), d, t, id)
  {
    var after := Begun(s, key, items);
    if !after.submissions[d].phase.Left? && SawNew(after.submissions[d], id)
      && Guarded(after.submissions[t]) && Secured(after.submissions[t], id) {
      NewcomerIsNeutral(s, key, items, d, id);
      NewcomerIsNeutral(s, key, items, t, id);
      assert Fence(s, d, t, id);
      MarksOutliveBegins(s, key, items, id);
    }
  }

  lemma {:induction false} BeginKeepsFences(s: State, key: Key, items: seq<Item>)
    requires Inv(s)
    ensures Fenced(Begun(s, key, items)) && Safe(Begun(s, key, items))
  {
    var after := Begun(s, key, items);
    forall t, id | 0 <= t < |after.submissions| && Guarded(after.submissions[t]) && Secured(after.submissions[t], id)
      ensures Present(after.store, id)
    {
      NewcomerIsNeutral(s, key, items, t, id);
    }
    forall d, t, id | 0 <= d < |after.submissions| && 0 <= t < |after.submissions| && d != t
      ensures Fence(after, d, t, id)
    {
      BeginKeepsFence(s, key, items, d, t, id);
    }
  }

  lemma {:induction false} BeginKeepsInv(s: State, key: Key, items: seq<Item>)
    requires Inv(s)
    ensures Inv(Begun(s, key, items))
  {
    BeginKeepsCounted(s, key, items);
    BeginKeepsFences(s, key, items);
    var after := Begun(s, key, items);
    forall t | 0 <= t < |after.submissions|
      ensures Shaped(after, after.submissions[t])
    {
      if t < |s.submissions| {
        assert after.submissions[t] == s.submissions[t] && Shaped(s, s.submissions[t]);
      }
    }
  }

  lemma {:induction false} HoldersAfterRelease(s: State, c: nat, id: ObjectId)
    requires c < |s.submissions| && !s.submissions[c].phase.Left?
    ensures Holders(Released(s, c).submissions, id) == Holders(s.submissions, id) - {c}
    ensures c in Holders(s.submissions, id) <==> id in Ids(s.submissions[c].items)
    ensures var (before, after) := (Holders(s.submissions, id), Holders(Released(s, c).submissions, id));
      && |after| == (if c in before then |before| - 1 else |before|)
      && (after == {} <==> |after| == 0)
  {
    var (before, after) := (Holders(s.submissions, id), Holders(Released(s, c).submissions, id));
    assert after == before - {c};
    if c in before {
      assert |before - {c}| == |before| - 1;
    } else {
      assert before - {c} == before;
    }
  }

  lemma {:induction false} ReleaseKeepsCounted(s: State, c: nat)
    requires Counted(s) && c < |s.submissions| && !s.submissions[c].phase.Left?
    ensures Counted(Released(s, c))
  {
    forall id
      ensures var (held, holders) := (Released(s, c).held, Holders(Released(s, c).submissions, id));
        && (id in held <==> holders != {})
        && (id in held ==> held[id].holders == |holders|)
        && (|holders| >= 2 ==> held[id].shared)
    {
      HoldersAfterRelease(s, c, id);
    }
  }

  /** A release takes no mark away from an object that another submission in flight saw as new. */
  lemma {:induction false} MarksOutliveReleases(s: State, c: nat, d: nat, id: ObjectId)
    requires Inv(s) && c < |s.submissions| && d < |s.submissions| && c != d
    requires !s.submissions[c].phase.Left? && !s.submissions[d].phase.Left? && SawNew(s.submissions[d], id)
    requires id in s.held && s.held[id].shared
    ensures id in Released(s, c).held && Released(s, c).held[id].shared
  {
    NewItemsAreHeld(s, d, id);
    if id in Ids(s.submissions[c].items) {
      TwoHoldersShare(s, c, d, id);
    }
  }

  /** A release changes the phase of its own submission only, and guards nothing more. */
  lemma {:induction false} ReleaseIsNeutral(s: State, c: nat, t: nat, id: ObjectId)
    requires c < |s.submissions| && s.submissions[c].phase.Leaving? && t < |s.submissions|
    ensures var after := Released(s, c).submissions[t];
      && (Guarded(after) ==> Guarded(s.submissions[t]))
      && (Secured(after, id) ==> Secured(s.submissions[t], id))
      && (!after.phase.Left? ==> t != c && after == s.submissions[t])
  {
  }

  lemma {:induction false} ReleaseKeepsFence(s: State, c: nat, d: nat, t: nat, id: ObjectId)
    requires Inv(s) && c < |s.submissions| && s.submissions[c].phase.Leaving?
    requires d < |s.submissions| && t < |s.submissions| && d != t
    ensures Fence(Released(s, c), d, t, id)
  {
    var after := Released(s, c).submissions;
    if !after[d].phase.Left? && SawNew(after[d], id) && Guarded(after[t]) && Secured(after[t], id) {
      ReleaseIsNeutral(s, c, d, id);
      ReleaseIsNeutral(s, c, t, id);
      assert Fence(s, d, t, id);
      MarksOutliveReleases(s, c, d, id);
    }
  }

  lemma {:induction false} ReleaseKeepsFences(s: State, c: nat)
    requires Inv(s) && c < |s.submissions| && s.submissions[c].phase.Leaving?
    ensures Fenced(Released(s, c))
  {
    var after := Released(s, c);
    forall d, t, id | 0 <= d < |after.submissions| && 0 <= t < |after.submissions| && d != t
      ensures Fence(after, d, t, id)
    {
      ReleaseKeepsFence(s, c, d, t, id);
    }
  }

  lemma {:induction false} ReleaseKeepsSafe(s: State, c: nat)
    requires Safe(s) && c < |s.submissions| && s.submissions[c].phase.Leaving?
    ensures Safe(Released(s, c))
  {
    var after := Released(s, c);
    forall t, id | 0 <= t < |after.submissions| && Guarded(after.submissions[t]) && Secured(after.submissions[t], id)
      ensures Present(after.store, id)
    {
      ReleaseIsNeutral(s, c, t, id);
    }
  }

  lemma {:induction false} ReleaseKeepsInv(s: State, c: nat)
    requires Inv(s) && c < |s.submissions| && s.submissions[c].phase.Leaving?
    ensures Inv(Released(s, c))
  {
    ReleaseKeepsCounted(s, c);
    ReleaseKeepsFences(s, c);
    ReleaseKeepsSafe(s, c);
    var after := Released(s, c);
    forall t | 0 <= t < |after.submissions|
      ensures Shaped(after, after.submissions[t])
    {
      assert Shaped(s, s.submissions[t]);
    }
  }

  lemma {:induction false} CommitLateIsNeutral(s: State, c: nat, t: nat, id: ObjectId)
    requires c < |s.submissions| && t < |s.submissions|
    ensures var (before, after) := (s.submissions[t], CommittedLate(s, c).submissions[t]);
      && (Guarded(after) <==> Guarded(before)) && (Secured(after, id) <==> Secured(before, id))
      && (SawNew(after, id) <==> SawNew(before, id)) && after.phase == before.phase && after.items == before.items
  {
  }

  lemma {:induction false} CommitLateKeepsInv(s: State, c: nat)
    requires Inv(s) && c < |s.submissions| && AppendThrew(s.submissions[c])
    ensures Inv(CommittedLate(s, c))
  {
    var after := CommittedLate(s, c);
    forall t | 0 <= t < |after.submissions|
      ensures Shaped(after, after.submissions[t])
    {
      assert Shaped(s, s.submissions[t]);
    }
    forall id
      ensures Holders(after.submissions, id) == Holders(s.submissions, id)
    {
    }
    forall t, id | 0 <= t < |after.submissions| && Guarded(after.submissions[t]) && Secured(after.submissions[t], id)
      ensures Present(after.store, id)
    {
      CommitLateIsNeutral(s, c, t, id);
    }
    forall d, t, id | 0 <= d < |after.submissions| && 0 <= t < |after.submissions| && d != t
      ensures Fence(after, d, t, id)
    {
      CommitLateIsNeutral(s, c, d, id);
      CommitLateIsNeutral(s, c, t, id);
      assert Fence(s, d, t, id);
    }
  }

  lemma {:induction false} RunKeepsInv(sha: Hasher, steps: seq<Step>)
    requires Run(sha, steps).Some?
    ensures Inv(Run(sha, steps).value)
  {
    if steps != [] {
      var n := |steps| - 1;
      var s := Run(sha, steps[..n]).value;
      RunKeepsInv(sha, steps[..n]);
      match steps[n] {
        case Begin(key, items) => BeginKeepsInv(s, key, items);
        case Release(c) => ReleaseKeepsInv(s, c);
        case CommitLate(c) => CommitLateKeepsInv(s, c);
        case _ => MoveKeepsInv(sha, s, steps[n].c, steps[n]);
      }
    } else {
      assert Inv(Start);
    }
  }

  /** In every run, all evidence of a submission whose entry committed, however late, is still there,
      unless its own append threw and its re-check found nothing; any other call may have failed
      and compensated, whatever its re-check saw. */
  lemma {:induction false} CommittedEvidenceStays(sha: Hasher, steps: seq<Step>, t: nat, i: nat)
    requires Run(sha, steps).Some?
    requires var s := Run(sha, steps).value;
      t < |s.submissions| && s.submissions[t].landed && !s.submissions[t].compensates && i < |s.submissions[t].items|
    ensures var s := Run(sha, steps).value;
      && s.submissions[t].key in s.committed
      && Present(s.store, s.submissions[t].items[i].ref.objectId)
  {
    RunKeepsInv(sha, steps);
    var s := Run(sha, steps).value;
    assert Shaped(s, s.submissions[t]);
    assert Secured(s.submissions[t], s.submissions[t].items[i].ref.objectId);
  }

  /** A submission whose append returned is past it for good: its entry landed and it compensates nothing. */
  ghost predicate Acknowledged(s: State, t: nat) {
    && t < |s.submissions| && s.submissions[t].landed && !s.submissions[t].compensates
    && (s.submissions[t].phase.Leaving? || s.submissions[t].phase.Left?)
  }

  lemma {:induction false} StepKeepsAcknowledged(sha: Hasher, s: State, step: Step, t: nat)
    requires Next(sha, s, step).Some? && Inv(s) && (Acknowledged(s, t) || step == AppendReturns(t))
    ensures Acknowledged(Next(sha, s, step).value, t)
  {
    if t < |s.submissions| {
      assert Shaped(s, s.submissions[t]);
    }
  }

  lemma {:induction false} ReturnsAreAcknowledged(sha: Hasher, steps: seq<Step>, t: nat)
    requires Run(sha, steps).Some? && AppendReturns(t) in steps
    ensures Acknowledged(Run(sha, steps).value, t)
  {
    var n := |steps| - 1;
    var s := Run(sha, steps[..n]).value;
    assert steps == steps[..n] + [steps[n]];
    RunKeepsInv(sha, steps[..n]);
    if steps[n] != AppendReturns(t) {
      ReturnsAreAcknowledged(sha, steps[..n], t);
    }
    StepKeepsAcknowledged(sha, s, steps[n], t);
  }

  /** So once an append returned, all evidence of its submission stays, whatever else happens. */
  lemma {:induction false} AcknowledgedEvidenceStays(sha: Hasher, steps: seq<Step>, t: nat, i: nat)
    requires Run(sha, steps).Some? && AppendReturns(t) in steps
    ensures t < |Run(sha, steps).value.submissions|
    ensures var s := Run(sha, steps).value;
      i < |s.submissions[t].items| ==>
        s.submissions[t].key in s.committed && Present(s.store, s.submissions[t].items[i].ref.objectId)
  {
    ReturnsAreAcknowledged(sha, steps, t);
    if i < |Run(sha, steps).value.submissions[t].items| {
      CommittedEvidenceStays(sha, steps, t, i);
    }
  }

  /** A compensating submission disposes what it stored, object by object: one that is marked shared it
      passes over, at one that is legally held it stops, and any other is gone. */
  lemma {:induction false} DisposesExactly(sha: Hasher, s: State, c: nat)
    requires c < |s.submissions| && s.submissions[c].phase.Disposing?
    requires s.submissions[c].phase.next < |s.submissions[c].stored|
    ensures var (t, after) := (s.submissions[c], Next(sha, s, DisposeNext(c)));
      var (id, shared) := (t.stored[t.phase.next].ref.objectId, t.stored[t.phase.next].ref.objectId in s.held
                           && s.held[t.stored[t.phase.next].ref.objectId].shared);
      var legallyHeld := id in s.store && s.store[id].holds != {};
      && after.Some? && after.value.committed == s.committed && after.value.held == s.held
      && after.value.submissions
         == s.submissions[c := t.(phase := if !shared && legallyHeld then Leaving else Disposing(t.phase.next + 1))]
      && after.value.store.Keys == s.store.Keys
      && (forall other :: other in s.store && other != id ==> after.value.store[other] == s.store[other])
      && (id in s.store ==>
            after.value.store[id] == if shared || legallyHeld then s.store[id] else s.store[id].(ciphertext := None))
  {
  }

  /** The append of submission t took effect at some step. */
  predicate Lands(steps: seq<Step>, t: nat) {
    AppendReturns(t) in steps || AppendThrows(t, true) in steps || CommitLate(t) in steps
  }

  /** It has not appended yet. */
  predicate Early(t: Submission) {
    t.phase.Persisting? || t.phase.Asked? || t.phase.Appending?
  }

  lemma {:induction false} StepLands(sha: Hasher, s: State, step: Step, t: nat)
    requires Next(sha, s, step).Some? && t < |Next(sha, s, step).value.submissions|
    requires t < |s.submissions| && Early(s.submissions[t]) ==> !s.submissions[t].landed && !s.submissions[t].compensates
    requires t < |s.submissions| && s.submissions[t].phase.Rechecking? ==> !s.submissions[t].compensates
    ensures var after := Next(sha, s, step).value.submissions[t];
      && (after.landed <==> (t < |s.submissions| && s.submissions[t].landed) || Lands([step], t))
      && (after.compensates <==> (t < |s.submissions| && s.submissions[t].compensates) || step == Recheck(t, false))
      && (Early(after) ==> !after.landed && !after.compensates)
      && (after.phase.Rechecking? ==> !after.compensates)
  {
  }

  lemma {:induction false} NothingBeforeItBegins(sha: Hasher, steps: seq<Step>, t: nat)
    requires Run(sha, steps).Some? && t >= |Run(sha, steps).value.submissions|
    ensures !Lands(steps, t) && Recheck(t, false) !in steps
  {
    if steps != [] {
      var n := |steps| - 1;
      assert steps == steps[..n] + [steps[n]];
      assert |Run(sha, steps[..n]).value.submissions| <= |Run(sha, steps).value.submissions|;
      NothingBeforeItBegins(sha, steps[..n], t);
    }
  }

  lemma {:induction false} RunSays(sha: Hasher, steps: seq<Step>, t: nat)
    requires Run(sha, steps).Some? && t < |Run(sha, steps).value.submissions|
    ensures var sub := Run(sha, steps).value.submissions[t];
      && (sub.landed <==> Lands(steps, t)) && (sub.compensates <==> Recheck(t, false) in steps)
      && (Early(sub) ==> !sub.landed && !sub.compensates) && (sub.phase.Rechecking? ==> !sub.compensates)
  {
    if steps != [] {
      var n := |steps| - 1;
      var s := Run(sha, steps[..n]).value;
      assert steps == steps[..n] + [steps[n]];
      if t < |s.submissions| {
        RunSays(sha, steps[..n], t);
      } else {
        NothingBeforeItBegins(sha, steps[..n], t);
      }
      StepLands(sha, s, steps[n], t);
    }
  }

  /** In terms of the run alone: once an append took effect, returned or not, early or late, the evidence
      of its submission stays, unless a re-check of that submission found nothing. */
  lemma {:induction false} LandedEvidenceStays(sha: Hasher, steps: seq<Step>, t: nat, i: nat)
    requires Run(sha, steps).Some? && Lands(steps, t) && Recheck(t, false) !in steps
    ensures t < |Run(sha, steps).value.submissions|
    ensures var s := Run(sha, steps).value;
      i < |s.submissions[t].items| ==>
        s.submissions[t].key in s.committed && Present(s.store, s.submissions[t].items[i].ref.objectId)
  {
    if t >= |Run(sha, steps).value.submissions| {
      NothingBeforeItBegins(sha, steps, t);
    }
    RunSays(sha, steps, t);
    if i < |Run(sha, steps).value.submissions[t].items| {
      CommittedEvidenceStays(sha, steps, t, i);
    }
  }

  lemma {:induction false} RunExtends(sha: Hasher, steps: seq<Step>, step: Step)
    requires Run(sha, steps).Some?
    ensures Run(sha, steps + [step]) == Next(sha, Run(sha, steps).value, step)
  {
    assert (steps + [step])[..|steps|] == steps;
  }

  /** A step of the only submission there is. */
  lemma {:induction false} OneMoves(
    sha: Hasher, steps: seq<Step>, step: Step, s: State, before: Submission,
    store: Store, committed: set<Key>, after: Submission)
    requires Run(sha, steps) == Some(s) && s.submissions == [before]
    requires !step.Begin? && !step.Release? && !step.CommitLate? && step.c == 0
    requires Move(sha, s, before, step) == Some((store, committed, after))
    ensures Run(sha, steps + [step]) == Some(State(store, s.held, committed, [after]))
  {
    RunExtends(sha, steps, step);
    assert s.submissions[0 := after] == [after];
  }

  function OneStored(item: Item, ciphertext: Option<Bytes>): Store {
    map[item.ref.objectId := ObjectState(item.ref, ciphertext, {})]
  }

  /** One submission of one item, up to its put. */
  lemma {:induction false} FirstPut(sha: Hasher, key: Key, item: Item)
    requires Intact(sha, item)
    ensures Run(sha, [Begin(key, [item])] + [AskHas(0)] + [PutItem(0)]) ==
      Some(State(OneStored(item, Some(item.ciphertext)), Holding(map[], Ids([item])), {},
                 [Submission(key, [item], 1, [item], false, false, Appending)]))
  {
    var begun := Submission(key, [item], 0, [], false, false, Persisting);
    var (asked, held) := (begun.(phase := Asked(false)), Holding(map[], Ids([item])));
    RunExtends(sha, [], Begin(key, [item]));
    assert [] + [Begin(key, [item])] == [Begin(key, [item])] && Start.submissions + [begun] == [begun];
    OneMoves(sha, [Begin(key, [item])], AskHas(0), State(map[], held, {}, [begun]), begun, map[], {}, asked);
    var stored := OneStored(item, Some(item.ciphertext));
    assert Put(sha, map[], item) == Some(stored);
    assert asked.stored + [item] == [item];
    OneMoves(sha, [Begin(key, [item])] + [AskHas(0)], PutItem(0), State(map[], held, {}, [asked]), asked, stored, {},
             Submission(key, [item], 1, [item], false, false, Appending));
  }

  lemma {:induction false} DisposesOne(item: Item)
    ensures Retain(OneStored(item, Some(item.ciphertext)), Dispose(item.ref)) == (OneStored(item, None), Disposed)
  {
    var (stored, id) := (OneStored(item, Some(item.ciphertext)), item.ref.objectId);
    assert stored[id := stored[id].(ciphertext := None)] == OneStored(item, None);
  }

  /** That submission once its append threw after committing, and its re-check missed that. */
  function Misled(key: Key, item: Item, next: nat): Submission {
    Submission(key, [item], 1, [item], true, true, Disposing(next))
  }

  lemma {:induction false} ThrowThenMiss(sha: Hasher, steps: seq<Step>, s: State, key: Key, item: Item)
    requires Run(sha, steps) == Some(s) && s.committed == {}
    requires s.submissions == [Submission(key, [item], 1, [item], false, false, Appending)]
    ensures Run(sha, steps + [AppendThrows(0, true)] + [Recheck(0, false)])
         == Some(State(s.store, s.held, {key}, [Misled(key, item, 0)]))
  {
    var put := Submission(key, [item], 1, [item], false, false, Appending);
    var thrown := put.(landed := true, phase := Rechecking);
    assert s.committed + {key} == {key};
    OneMoves(sha, steps, AppendThrows(0, true), s, put, s.store, {key}, thrown);
    OneMoves(sha, steps + [AppendThrows(0, true)], Recheck(0, false),
             State(s.store, s.held, {key}, [thrown]), thrown, s.store, {key}, Misled(key, item, 0));
  }

  lemma {:induction false} MisledDisposes(sha: Hasher, steps: seq<Step>, s: State, key: Key, item: Item)
    requires Run(sha, steps) == Some(s) && s.submissions == [Misled(key, item, 0)]
    requires s.store == OneStored(item, Some(item.ciphertext))
    requires item.ref.objectId in s.held ==> !s.held[item.ref.objectId].shared
    ensures Run(sha, steps + [DisposeNext(0)])
         == Some(State(OneStored(item, None), s.held, s.committed, [Misled(key, item, 1)]))
  {
    DisposesOne(item);
    OneMoves(sha, steps, DisposeNext(0), s, Misled(key, item, 0), OneStored(item, None), s.committed, Misled(key, item, 1));
  }

  /** The exception is real: an append that throws after committing, and a re-check served from
      before the commit, make a submission dispose evidence that its own entry refers to. */
  lemma {:induction false} StaleRecheckStrips(sha: Hasher, key: Key, item: Item)
    requires Intact(sha, item)
    ensures var steps := [Begin(key, [item])] + [AskHas(0)] + [PutItem(0)]
                         + [AppendThrows(0, true)] + [Recheck(0, false)] + [DisposeNext(0)];
      && Run(sha, steps).Some?
      && var s := Run(sha, steps).value;
      && key in s.committed && |s.submissions| == 1 && s.submissions[0].landed && s.submissions[0].items == [item]
      && !Present(s.store, item.ref.objectId)
  {
    var steps := [Begin(key, [item])] + [AskHas(0)] + [PutItem(0)];
    var (stored, held) := (OneStored(item, Some(item.ciphertext)), Holding(map[], Ids([item])));
    FirstPut(sha, key, item);
    ThrowThenMiss(sha, steps, Run(sha, steps).value, key, item);
    MisledDisposes(sha, steps + [AppendThrows(0, true)] + [Recheck(0, false)],
                   State(stored, held, {key}, [Misled(key, item, 0)]), key, item);
  }
}
