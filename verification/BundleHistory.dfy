/** Consistency proofs and checkpoint history of a replay bundle, src/audit/replay-bundle.ts. */
module BundleHistory {
  import opened Wrappers
  import opened Hashing
  import opened MerkleTree
  import opened MerkleVerify
  import MerkleConsistency
  import opened ReplayBundle

  // ---- Consistency proofs ------------------------------------------------------------

  predicate GoodConsistency(sha: Hasher, candidate: Option<ConsistencyItem>, checkpoints: seq<Checkpoint>) {
    candidate.Some? && ConsistencyItemAccepted(sha, candidate.value, checkpoints)
  }

  function KeyOfConsistency(item: ConsistencyItem): ConsistencyKey {
    (item.oldCheckpointDigest, item.newCheckpointDigest)
  }

  function ConsistencyKeys(
    sha: Hasher, candidates: seq<Option<ConsistencyItem>>, checkpoints: seq<Checkpoint>): set<ConsistencyKey> {
    set c | c in candidates && GoodConsistency(sha, c, checkpoints) :: KeyOfConsistency(c.value)
  }

  lemma {:induction false} ConsistencyKeysSnoc(
    sha: Hasher, candidates: seq<Option<ConsistencyItem>>, next: Option<ConsistencyItem>, checkpoints: seq<Checkpoint>)
    ensures ConsistencyKeys(sha, candidates + [next], checkpoints) ==
      ConsistencyKeys(sha, candidates, checkpoints)
      + if GoodConsistency(sha, next, checkpoints) then {KeyOfConsistency(next.value)} else {}
  {
    var all := candidates + [next];
    assert forall c :: c in all <==> c in candidates || c == next;
    forall key | key in ConsistencyKeys(sha, candidates, checkpoints)
      ensures key in ConsistencyKeys(sha, all, checkpoints)
    {
      var c :| c in candidates && GoodConsistency(sha, c, checkpoints) && KeyOfConsistency(c.value) == key;
      assert c in all;
    }
    if GoodConsistency(sha, next, checkpoints) {
      assert next in all;
    }
  }

  /** The consistency loop of `verifyMerkleProofComponents`. */
  method VerifyConsistencyComponents(sha: Hasher, candidates: seq<Option<ConsistencyItem>>, checkpoints: seq<Checkpoint>)
    returns (reasons: set<Reason>, consistencies: set<ConsistencyKey>)
    ensures consistencies == ConsistencyKeys(sha, candidates, checkpoints)
    ensures reasons == {} <==> forall c :: c in candidates ==> GoodConsistency(sha, c, checkpoints)
  {
    reasons, consistencies := {}, {};
    for n := 0 to |candidates|
      invariant consistencies == ConsistencyKeys(sha, candidates[..n], checkpoints)
      invariant reasons == {} <==> forall c :: c in candidates[..n] ==> GoodConsistency(sha, c, checkpoints)
    {
      var candidate := candidates[n];
      assert candidates[..n + 1] == candidates[..n] + [candidate];
      ConsistencyKeysSnoc(sha, candidates[..n], candidate, checkpoints);
      if candidate.None? {
        reasons := reasons + {SchemaInvalid};
        continue;
      }
      var item := candidate.value;
      var older := FindCheckpoint(checkpoints, item.oldCheckpointDigest, item.ledger);
      var newer := FindCheckpoint(checkpoints, item.newCheckpointDigest, item.ledger);
      var consistent := false;
      if older.Some? && newer.Some? && item.oldTreeSize == older.value.core.treeSize
         && item.newTreeSize == newer.value.core.treeSize {
        consistent := VerifyConsistency(sha, item.oldTreeSize, item.newTreeSize, Sha256(older.value.core.rootDigest),
                                        Sha256(newer.value.core.rootDigest), Texts(item.auditPath));
      }
      if consistent {
        consistencies := consistencies + {KeyOfConsistency(item)};
      } else {
        reasons := reasons + {MerkleProofInvalid};
      }
    }
    assert candidates[..|candidates|] == candidates;
  }

  // ---- History -----------------------------------------------------------------------

  function Insert(c: Checkpoint, sorted: seq<Checkpoint>): seq<Checkpoint> {
    if sorted == [] then [c]
    else
      var n := |sorted| - 1;
      if sorted[n].core.treeSize <= c.core.treeSize then sorted + [c] else Insert(c, sorted[..n]) + [sorted[n]]
  }

  /** A group in tree-size order; equal sizes keep their order. */
  function SortBySize(group: seq<Checkpoint>): seq<Checkpoint> {
    if group == [] then [] else Insert(group[|group| - 1], SortBySize(group[..|group| - 1]))
  }

  function Group(checkpoints: seq<Checkpoint>, ledger: LedgerRef): (group: seq<Checkpoint>)
    ensures forall c :: c in group <==> c in checkpoints && c.core.ledger == ledger
  {
    if checkpoints == [] then []
    else
      (if checkpoints[0].core.ledger == ledger then [checkpoints[0]] else []) + Group(checkpoints[1..], ledger)
  }

  predicate Ascending(sorted: seq<Checkpoint>) {
    forall i, j :: 0 <= i < j < |sorted| ==> sorted[i].core.treeSize <= sorted[j].core.treeSize
  }

  lemma {:induction false} InsertAscends(c: Checkpoint, sorted: seq<Checkpoint>)
    requires Ascending(sorted)
    ensures Ascending(Insert(c, sorted))
    ensures forall x :: x in Insert(c, sorted) <==> x == c || x in sorted
  {
    if sorted != [] {
      var n := |sorted| - 1;
      assert sorted == sorted[..n] + [sorted[n]];
      if sorted[n].core.treeSize > c.core.treeSize {
        InsertAscends(c, sorted[..n]);
        var front := Insert(c, sorted[..n]);
        assert forall i :: 0 <= i < |front| ==> front[i] in front;
      }
    }
  }

  lemma {:induction false} SortAscends(group: seq<Checkpoint>)
    ensures Ascending(SortBySize(group))
    ensures forall x :: x in SortBySize(group) <==> x in group
  {
    if group != [] {
      var n := |group| - 1;
      SortAscends(group[..n]);
      InsertAscends(group[n], SortBySize(group[..n]));
      assert group == group[..n] + [group[n]];
    }
  }

  /** Two neighbours are bound by the chain link, or, when an omitted checkpoint could sit between
      them, by a verified consistency proof. */
  predicate Linked(
    sorted: seq<Checkpoint>, previous: Checkpoint, current: Checkpoint, consistencies: set<ConsistencyKey>) {
    var claimed := current.core.previousCheckpointDigest;
    && current.core.treeSize != previous.core.treeSize
    && (claimed == Some(previous.checkpointDigest)
        || (claimed.Some? && (forall c :: c in sorted ==> c.checkpointDigest != claimed.value)
            && current.core.treeSize - previous.core.treeSize > 1
            && (previous.checkpointDigest, current.checkpointDigest) in consistencies))
  }

  /** So of two sizes in order, equal ones are a fork; a newer one that names the older is linked; one that
      names nothing, another included checkpoint, or an omitted one where none can be, is not; and the
      rest need the proof. */
  lemma {:induction false} LinkedExactly(
    sorted: seq<Checkpoint>, previous: Checkpoint, current: Checkpoint, consistencies: set<ConsistencyKey>)
    requires previous.core.treeSize <= current.core.treeSize
    ensures var (linked, claimed) := (Linked(sorted, previous, current, consistencies), current.core.previousCheckpointDigest);
      var (size, next) := (previous.core.treeSize, current.core.treeSize);
      && (next == size ==> !linked)
      && (next > size && claimed == Some(previous.checkpointDigest) ==> linked)
      && (claimed != Some(previous.checkpointDigest) ==>
            && (claimed == None || next == size + 1 ==> !linked)
            && ((exists c :: c in sorted && claimed == Some(c.checkpointDigest)) ==> !linked)
            && (claimed.Some? && next > size + 1 && (forall c :: c in sorted ==> claimed != Some(c.checkpointDigest)) ==>
                  (linked <==> (previous.checkpointDigest, current.checkpointDigest) in consistencies)))
  {
  }

  predicate AllLinked(sorted: seq<Checkpoint>, n: nat, consistencies: set<ConsistencyKey>)
    requires n <= |sorted|
  {
    forall i :: 1 <= i < n ==> Linked(sorted, sorted[i - 1], sorted[i], consistencies)
  }

  method VerifyGroup(sorted: seq<Checkpoint>, consistencies: set<ConsistencyKey>) returns (reasons: set<Reason>)
    ensures reasons == {} <==> AllLinked(sorted, |sorted|, consistencies)
  {
    reasons := {};
    for index := 0 to |sorted|
      invariant reasons == {} <==> AllLinked(sorted, index, consistencies)
    {
      if index == 0 {
        continue;
      }
      var previous, current := sorted[index - 1], sorted[index];
      if current.core.treeSize == previous.core.treeSize {
        reasons := reasons + {OtherReason("checkpoint_fork_detected")};
        continue;
      }
      var claimed := current.core.previousCheckpointDigest;
      if claimed == Some(previous.checkpointDigest) {
        continue;
      }
      var omittable := claimed.Some? && (forall c :: c in sorted ==> c.checkpointDigest != claimed.value)
                       && current.core.treeSize - previous.core.treeSize > 1;
      if !omittable || (previous.checkpointDigest, current.checkpointDigest) !in consistencies {
        reasons := reasons + {OtherReason("checkpoint_chain_mismatch")};
      }
    }
  }

  predicate LedgerLinked(checkpoints: seq<Checkpoint>, ledger: LedgerRef, consistencies: set<ConsistencyKey>) {
    var sorted := SortBySize(Group(checkpoints, ledger));
    AllLinked(sorted, |sorted|, consistencies)
  }

  predicate HistoryLinked(checkpoints: seq<Checkpoint>, consistencies: set<ConsistencyKey>) {
    forall c :: c in checkpoints ==> LedgerLinked(checkpoints, c.core.ledger, consistencies)
  }

  /** The group loop of `verifyCheckpointHistory`, one turn for each ledger epoch. */
  method VerifyLinks(checkpoints: seq<Checkpoint>, consistencies: set<ConsistencyKey>) returns (reasons: set<Reason>)
    ensures reasons == {} <==> HistoryLinked(checkpoints, consistencies)
  {
    reasons := {};
    var seen: set<LedgerRef> := {};
    for n := 0 to |checkpoints|
      invariant seen == set k | 0 <= k < n :: checkpoints[k].core.ledger
      invariant reasons == {} <==> forall ledger :: ledger in seen ==> LedgerLinked(checkpoints, ledger, consistencies)
    {
      var ledger := checkpoints[n].core.ledger;
      if ledger !in seen {
        var more := VerifyGroup(SortBySize(Group(checkpoints, ledger)), consistencies);
        reasons := reasons + more;
        seen := seen + {ledger};
      }
    }
    assert forall c :: c in checkpoints ==> c.core.ledger in seen;
  }

  // ---- Selections --------------------------------------------------------------------

  /** Which checkpoints of a ledger epoch the exporter says are included. */
  datatype Selection = Selection(ledger: LedgerRef, checkpointTreeSizes: seq<nat>)

  function SizesOf(checkpoints: seq<Checkpoint>): (sizes: seq<nat>)
    ensures |sizes| == |checkpoints|
    ensures forall i :: 0 <= i < |sizes| ==> sizes[i] == checkpoints[i].core.treeSize
  {
    Mapped(checkpoints, (c: Checkpoint) => c.core.treeSize)
  }

  predicate Ordered(sizes: seq<nat>) {
    forall i, j :: 0 <= i < j < |sizes| ==> sizes[i] <= sizes[j]
  }

  function InsertSize(size: nat, sorted: seq<nat>): seq<nat> {
    if sorted == [] then [size]
    else
      var n := |sorted| - 1;
      if sorted[n] <= size then sorted + [size] else InsertSize(size, sorted[..n]) + [sorted[n]]
  }

  function SortSizes(sizes: seq<nat>): seq<nat> {
    if sizes == [] then [] else InsertSize(sizes[|sizes| - 1], SortSizes(sizes[..|sizes| - 1]))
  }

  /** How often a size occurs. */
  function Count(sizes: seq<nat>, x: nat): nat {
    multiset(sizes)[x]
  }

  lemma {:induction false} CountSnoc(sizes: seq<nat>, last: nat, x: nat)
    ensures Count(sizes + [last], x) == Count(sizes, x) + if x == last then 1 else 0
  {
  }

  lemma {:induction false} CountLast(sizes: seq<nat>, x: nat)
    requires sizes != []
    ensures Count(sizes, x) == Count(sizes[..|sizes| - 1], x) + if x == sizes[|sizes| - 1] then 1 else 0
  {
    CountSnoc(sizes[..|sizes| - 1], sizes[|sizes| - 1], x);
    assert sizes == sizes[..|sizes| - 1] + [sizes[|sizes| - 1]];
  }

  lemma {:induction false} InsertSizeCounts(size: nat, sorted: seq<nat>, x: nat)
    ensures Count(InsertSize(size, sorted), x) == Count(sorted, x) + if x == size then 1 else 0
  {
    if sorted == [] {
      CountSnoc([], size, x);
    } else {
      var n := |sorted| - 1;
      CountLast(sorted, x);
      if sorted[n] <= size {
        CountSnoc(sorted, size, x);
      } else {
        InsertSizeCounts(size, sorted[..n], x);
        CountSnoc(InsertSize(size, sorted[..n]), sorted[n], x);
      }
    }
  }

  lemma {:induction false} InsertSizeOrders(size: nat, sorted: seq<nat>)
    requires Ordered(sorted)
    ensures Ordered(InsertSize(size, sorted))
    ensures forall i :: 0 <= i < |InsertSize(size, sorted)| ==> InsertSize(size, sorted)[i] == size || InsertSize(size, sorted)[i] in sorted
  {
    if sorted != [] && sorted[|sorted| - 1] > size {
      InsertSizeOrders(size, sorted[..|sorted| - 1]);
    }
  }

  lemma {:induction false} SortSizesOrders(sizes: seq<nat>)
    ensures Ordered(SortSizes(sizes))
  {
    if sizes != [] {
      SortSizesOrders(sizes[..|sizes| - 1]);
      InsertSizeOrders(sizes[|sizes| - 1], SortSizes(sizes[..|sizes| - 1]));
    }
  }

  lemma {:induction false} SortSizesCounts(sizes: seq<nat>, x: nat)
    ensures Count(SortSizes(sizes), x) == Count(sizes, x)
  {
    if sizes != [] {
      SortSizesCounts(sizes[..|sizes| - 1], x);
      InsertSizeCounts(sizes[|sizes| - 1], SortSizes(sizes[..|sizes| - 1]), x);
      CountLast(sizes, x);
    }
  }

  lemma {:induction false} OnlyEmptyCountsNothing(sizes: seq<nat>)
    requires forall x :: Count(sizes, x) == 0
    ensures sizes == []
  {
    if sizes != [] {
      CountLast(sizes, sizes[|sizes| - 1]);
    }
  }

  /** The last of an ordered list is its greatest. */
  lemma {:induction false} LastIsGreatest(sizes: seq<nat>, x: nat)
    requires Ordered(sizes) && Count(sizes, x) > 0
    ensures sizes != [] && x <= sizes[|sizes| - 1]
  {
    assert x in sizes;
  }

  ghost predicate SameCounts(a: seq<nat>, b: seq<nat>) {
    forall x {:trigger Count(a, x)} {:trigger Count(b, x)} :: Count(a, x) == Count(b, x)
  }

  lemma {:induction false} SameLast(a: seq<nat>, b: seq<nat>)
    requires Ordered(a) && Ordered(b) && SameCounts(a, b) && a != []
    ensures b != [] && a[|a| - 1] == b[|b| - 1]
  {
    CountLast(a, a[|a| - 1]);
    LastIsGreatest(b, a[|a| - 1]);
    CountLast(b, b[|b| - 1]);
    LastIsGreatest(a, b[|b| - 1]);
  }

  lemma {:induction false} SameFronts(a: seq<nat>, b: seq<nat>)
    requires SameCounts(a, b) && a != [] && b != [] && a[|a| - 1] == b[|b| - 1]
    ensures SameCounts(a[..|a| - 1], b[..|b| - 1])
  {
    var (front, rest) := (a[..|a| - 1], b[..|b| - 1]);
    forall x
      ensures Count(front, x) == Count(rest, x)
    {
      CountLast(a, x);
      CountLast(b, x);
      assert Count(a, x) == Count(b, x);
    }
  }

  /** Ordered lists with the same counts are equal. */
  lemma {:induction false} OrderedUnique(a: seq<nat>, b: seq<nat>)
    requires Ordered(a) && Ordered(b) && SameCounts(a, b)
    ensures a == b
  {
    if a == [] {
      OnlyEmptyCountsNothing(b);
    } else {
      SameLast(a, b);
      SameFronts(a, b);
      OrderedUnique(a[..|a| - 1], b[..|b| - 1]);
      assert a == a[..|a| - 1] + [a[|a| - 1]] && b == b[..|b| - 1] + [b[|b| - 1]];
    }
  }

  lemma {:induction false} SortedSame(a: seq<nat>, b: seq<nat>)
    ensures SortSizes(a) == SortSizes(b) <==> multiset(a) == multiset(b)
  {
    forall x
      ensures Count(SortSizes(a), x) == multiset(a)[x] && Count(SortSizes(b), x) == multiset(b)[x]
    {
      SortSizesCounts(a, x);
      SortSizesCounts(b, x);
    }
    if multiset(a) == multiset(b) {
      SortSizesOrders(a);
      SortSizesOrders(b);
      OrderedUnique(SortSizes(a), SortSizes(b));
    }
  }

  /** The included checkpoints of the selected epoch have exactly the listed sizes, each as often. */
  predicate SelectionMet(checkpoints: seq<Checkpoint>, selection: Selection) {
    multiset(SizesOf(Group(checkpoints, selection.ledger))) == multiset(selection.checkpointTreeSizes)
  }

  method VerifySelections(checkpoints: seq<Checkpoint>, selections: seq<Selection>) returns (reasons: set<Reason>)
    ensures reasons == {} <==> forall s :: s in selections ==> SelectionMet(checkpoints, s)
  {
    reasons := {};
    for n := 0 to |selections|
      invariant reasons == {} <==> forall k :: 0 <= k < n ==> SelectionMet(checkpoints, selections[k])
    {
      var actual := SizesOf(Group(checkpoints, selections[n].ledger));
      var expected := selections[n].checkpointTreeSizes;
      SortedSame(actual, expected);
      if SortSizes(actual) != SortSizes(expected) {
        reasons := reasons + {OtherReason("checkpoint_missing")};
      }
    }
  }

  // ---- Epoch transitions -------------------------------------------------------------

  /** What the event that starts an epoch names: the epoch before, and its terminal checkpoint. */
  datatype EpochStart = EpochStart(previousEpochId: string, terminalDigest: Digest)

  /** A genesis entry whose predecessor epoch is selected names an included checkpoint of that epoch,
      and no included checkpoint of that epoch is larger. */
  predicate TransitionMet(
    checkpoints: seq<Checkpoint>, selections: seq<Selection>, entry: Entry, start: Option<EpochStart>)
  {
    entry.sequence == 0 && start.Some? ==>
      var predecessor := LedgerRef(entry.ledger.ledgerId, start.value.previousEpochId);
      (exists s :: s in selections && s.ledger == predecessor) ==>
        var terminal := FindCheckpoint(checkpoints, start.value.terminalDigest, predecessor);
        && terminal.Some?
        && forall c :: c in checkpoints && c.core.ledger == predecessor ==> c.core.treeSize <= terminal.value.core.treeSize
  }

  method VerifyTransitions(
    checkpoints: seq<Checkpoint>, selections: seq<Selection>, entries: seq<Entry>, starts: seq<Option<EpochStart>>)
    returns (reasons: set<Reason>)
    requires |starts| == |entries|
    ensures reasons == {} <==>
      forall k :: 0 <= k < |entries| ==> TransitionMet(checkpoints, selections, entries[k], starts[k])
  {
    reasons := {};
    for n := 0 to |entries|
      invariant reasons == {} <==>
        forall k :: 0 <= k < n ==> TransitionMet(checkpoints, selections, entries[k], starts[k])
    {
      var entry, start := entries[n], starts[n];
      if entry.sequence != 0 || start.None? {
        continue;
      }
      var predecessor := LedgerRef(entry.ledger.ledgerId, start.value.previousEpochId);
      if !exists s :: s in selections && s.ledger == predecessor {
        continue;
      }
      var terminal := FindCheckpoint(checkpoints, start.value.terminalDigest, predecessor);
      if terminal.None? {
        reasons := reasons + {OtherReason("checkpoint_chain_mismatch")};
        continue;
      }
      if exists c :: c in checkpoints && c.core.ledger == predecessor && c.core.treeSize > terminal.value.core.treeSize {
        reasons := reasons + {OtherReason("checkpoint_fork_detected")};
      }
    }
  }

  // ---- The checkpoint dimension ------------------------------------------------------

  /** What a bundle claims beyond its checkpoints: selections, and what each entry's event starts. */
  datatype Claims = Claims(selections: seq<Selection>, starts: seq<Option<EpochStart>>)

  predicate ClaimsMet(checkpoints: seq<Checkpoint>, entries: seq<Entry>, claims: Claims)
    requires |claims.starts| == |entries|
  {
    && (forall s :: s in claims.selections ==> SelectionMet(checkpoints, s))
    && (forall k :: 0 <= k < |entries| ==> TransitionMet(checkpoints, claims.selections, entries[k], claims.starts[k]))
  }

  /** `verifyCheckpointHistory`. */
  method VerifyCheckpointHistory(
    checkpoints: seq<Checkpoint>, entries: seq<Entry>, claims: Claims, consistencies: set<ConsistencyKey>)
    returns (dimension: Dimension)
    requires |claims.starts| == |entries|
    ensures dimension.verdict == Valid <==>
      HistoryLinked(checkpoints, consistencies) && ClaimsMet(checkpoints, entries, claims)
  {
    var links := VerifyLinks(checkpoints, consistencies);
    var selected := VerifySelections(checkpoints, claims.selections);
    var transitions := VerifyTransitions(checkpoints, claims.selections, entries, claims.starts);
    return Strict(links + selected + transitions);
  }

  /** The checkpoint part of `verifyAuditBundle`; without checkpoint candidates it is the report on
      the entries, unless a selection lists a checkpoint. */
  method VerifyCheckpointDimension(
    sha: Hasher, oracle: SignatureOracle, digestOf: CoreDigest, bundle: Bundle, claims: Claims,
    consistencyCandidates: seq<Option<ConsistencyItem>>, entriesReport: Dimension) returns (dimension: Dimension)
    requires |claims.starts| == |bundle.entries|
    ensures var checkpoints := Present(bundle.checkpointCandidates);
      dimension.verdict == Valid <==>
        if bundle.checkpointCandidates == [] then
          entriesReport.verdict == Valid && forall s :: s in claims.selections ==> s.checkpointTreeSizes == []
        else
          && AllBound(sha, oracle, digestOf, bundle)
          && (forall c :: c in bundle.inclusionCandidates ==> GoodInclusion(sha, c, bundle.entries, checkpoints))
          && (forall c :: c in consistencyCandidates ==> GoodConsistency(sha, c, checkpoints))
          && HistoryLinked(checkpoints, ConsistencyKeys(sha, consistencyCandidates, checkpoints))
          && ClaimsMet(checkpoints, bundle.entries, claims)
  {
    if bundle.checkpointCandidates == [] {
      if exists s :: s in claims.selections && s.checkpointTreeSizes != [] {
        return Strict({OtherReason("checkpoint_missing")});
      }
      return entriesReport;
    }
    var checkpoints := Present(bundle.checkpointCandidates);
    var reasons, consistencies := VerifyConsistencyComponents(sha, consistencyCandidates, checkpoints);
    var history := VerifyCheckpointHistory(checkpoints, bundle.entries, claims, consistencies);
    dimension := VerifyBundleCheckpoints(sha, oracle, digestOf, bundle, history, reasons);
  }

  // ---- What a linked history means ---------------------------------------------------

  lemma {:induction false} LinkedAscends(sorted: seq<Checkpoint>, consistencies: set<ConsistencyKey>, i: nat, j: nat)
    requires Ascending(sorted) && AllLinked(sorted, |sorted|, consistencies) && i < j < |sorted|
    ensures sorted[i].core.treeSize < sorted[j].core.treeSize
  {
    assert Linked(sorted, sorted[j - 1], sorted[j], consistencies);
  }

  /** In a linked history no two different checkpoints of one ledger epoch have the same size. */
  lemma {:induction false} NoForkedSizes(
    checkpoints: seq<Checkpoint>, consistencies: set<ConsistencyKey>, a: Checkpoint, b: Checkpoint)
    requires HistoryLinked(checkpoints, consistencies)
    requires a in checkpoints && b in checkpoints && a.core.ledger == b.core.ledger && a != b
    ensures a.core.treeSize != b.core.treeSize
  {
    var group := Group(checkpoints, a.core.ledger);
    var sorted := SortBySize(group);
    SortAscends(group);
    assert LedgerLinked(checkpoints, a.core.ledger, consistencies);
    assert a in sorted && b in sorted;
    var i :| 0 <= i < |sorted| && sorted[i] == a;
    var j :| 0 <= j < |sorted| && sorted[j] == b;
    if i < j {
      LinkedAscends(sorted, consistencies, i, j);
    } else {
      LinkedAscends(sorted, consistencies, j, i);
    }
  }

  lemma {:induction false} CountOnce(sizes: seq<nat>, x: nat)
    requires forall i, j :: 0 <= i < j < |sizes| ==> sizes[i] < sizes[j]
    ensures Count(sizes, x) <= 1
  {
    if sizes != [] {
      var n := |sizes| - 1;
      CountLast(sizes, x);
      if x == sizes[n] {
        assert x !in sizes[..n];
      } else {
        CountOnce(sizes[..n], x);
      }
    }
  }

  lemma {:induction false} CountTwice(sizes: seq<nat>, i: nat, j: nat)
    requires i < j < |sizes| && sizes[i] == sizes[j]
    ensures Count(sizes, sizes[i]) >= 2
  {
    var n := |sizes| - 1;
    CountLast(sizes, sizes[i]);
    if j < n {
      CountTwice(sizes[..n], i, j);
    } else {
      assert sizes[..n][i] in sizes[..n];
    }
  }

  lemma {:induction false} SizesLast(checkpoints: seq<Checkpoint>, x: nat)
    requires checkpoints != []
    ensures var n := |checkpoints| - 1;
      Count(SizesOf(checkpoints), x)
      == Count(SizesOf(checkpoints[..n]), x) + if x == checkpoints[n].core.treeSize then 1 else 0
  {
    var n := |checkpoints| - 1;
    CountLast(SizesOf(checkpoints), x);
    assert SizesOf(checkpoints)[..n] == SizesOf(checkpoints[..n]);
  }

  lemma {:induction false} InsertKeepsSizes(c: Checkpoint, sorted: seq<Checkpoint>, x: nat)
    ensures Count(SizesOf(Insert(c, sorted)), x)
         == Count(SizesOf(sorted), x) + if x == c.core.treeSize then 1 else 0
  {
    var after := Insert(c, sorted);
    SizesLast(after, x);
    if sorted != [] && sorted[|sorted| - 1].core.treeSize > c.core.treeSize {
      InsertKeepsSizes(c, sorted[..|sorted| - 1], x);
      SizesLast(sorted, x);
      assert after[..|after| - 1] == Insert(c, sorted[..|sorted| - 1]);
    } else {
      assert after[..|after| - 1] == sorted;
    }
  }

  lemma {:induction false} SortKeepsSizes(group: seq<Checkpoint>, x: nat)
    ensures Count(SizesOf(SortBySize(group)), x) == Count(SizesOf(group), x)
  {
    if group != [] {
      SortKeepsSizes(group[..|group| - 1], x);
      InsertKeepsSizes(group[|group| - 1], SortBySize(group[..|group| - 1]), x);
      SizesLast(group, x);
    }
  }

  lemma {:induction false} ListedMeansIncluded(checkpoints: seq<Checkpoint>, selection: Selection, size: nat)
    requires SelectionMet(checkpoints, selection)
    ensures size in selection.checkpointTreeSizes <==>
      exists c :: c in checkpoints && c.core.ledger == selection.ledger && c.core.treeSize == size
  {
    var group := Group(checkpoints, selection.ledger);
    assert size in selection.checkpointTreeSizes <==> size in multiset(SizesOf(group));
    if size in SizesOf(group) {
      var k :| 0 <= k < |group| && SizesOf(group)[k] == size;
      assert group[k] in group;
    }
    if c :| c in group && c.core.treeSize == size {
      var k :| 0 <= k < |group| && group[k] == c;
      assert SizesOf(group)[k] in SizesOf(group);
    }
  }

  /** A linked history that meets a selection has one checkpoint of each listed size and no others,
      and the selection lists no size twice. */
  lemma {:induction false} SelectionIsExact(
    checkpoints: seq<Checkpoint>, consistencies: set<ConsistencyKey>, selection: Selection)
    requires HistoryLinked(checkpoints, consistencies) && SelectionMet(checkpoints, selection)
    ensures forall size :: size in selection.checkpointTreeSizes <==>
      exists c :: c in checkpoints && c.core.ledger == selection.ledger && c.core.treeSize == size
    ensures forall i, j :: 0 <= i < j < |selection.checkpointTreeSizes| ==>
      selection.checkpointTreeSizes[i] != selection.checkpointTreeSizes[j]
  {
    forall size
      ensures size in selection.checkpointTreeSizes <==>
        exists c :: c in checkpoints && c.core.ledger == selection.ledger && c.core.treeSize == size
    {
      ListedMeansIncluded(checkpoints, selection, size);
    }
    forall i, j | 0 <= i < j < |selection.checkpointTreeSizes|
      ensures selection.checkpointTreeSizes[i] != selection.checkpointTreeSizes[j]
    {
      ListedOnce(checkpoints, consistencies, selection, i, j);
    }
  }

  lemma {:induction false} ListedOnce(
    checkpoints: seq<Checkpoint>, consistencies: set<ConsistencyKey>, selection: Selection, i: nat, j: nat)
    requires HistoryLinked(checkpoints, consistencies) && SelectionMet(checkpoints, selection)
    requires i < j < |selection.checkpointTreeSizes|
    ensures selection.checkpointTreeSizes[i] != selection.checkpointTreeSizes[j]
  {
    var (group, listed) := (Group(checkpoints, selection.ledger), selection.checkpointTreeSizes);
    var sorted := SortBySize(group);
    SortAscends(group);
    forall m, n | 0 <= m < n < |sorted|
      ensures SizesOf(sorted)[m] < SizesOf(sorted)[n]
    {
      assert sorted[m] in sorted && LedgerLinked(checkpoints, selection.ledger, consistencies);
      LinkedAscends(sorted, consistencies, m, n);
    }
    CountOnce(SizesOf(sorted), listed[i]);
    SortKeepsSizes(group, listed[i]);
    if listed[i] == listed[j] {
      CountTwice(listed, i, j);
    }
  }

  /** What the consistency proof behind an accepted key says of the bundle's own checkpoints. */
  lemma {:induction false} ConsistentPair(
    sha: Hasher, oracle: SignatureOracle, digestOf: CoreDigest, bundle: Bundle,
    candidates: seq<Option<ConsistencyItem>>, older: Checkpoint, newer: Checkpoint)
    returns (item: ConsistencyItem)
    requires AllBound(sha, oracle, digestOf, bundle) && CoresDistinct(digestOf, bundle)
    requires Some(older) in bundle.checkpointCandidates && Some(newer) in bundle.checkpointCandidates
    requires (older.checkpointDigest, newer.checkpointDigest)
      in ConsistencyKeys(sha, candidates, Present(bundle.checkpointCandidates))
    ensures Some(item) in candidates && GoodConsistency(sha, Some(item), Present(bundle.checkpointCandidates))
    ensures item.oldTreeSize == older.core.treeSize && item.newTreeSize == newer.core.treeSize
    ensures FindCheckpoint(Present(bundle.checkpointCandidates), item.oldCheckpointDigest, item.ledger).value.core == older.core
    ensures ConsistencyAccepted(sha, older.core.treeSize, newer.core.treeSize, Sha256(older.core.rootDigest),
                                Sha256(newer.core.rootDigest), Texts(item.auditPath))
  {
    var checkpoints := Present(bundle.checkpointCandidates);
    var key := (older.checkpointDigest, newer.checkpointDigest);
    var c :| c in candidates && GoodConsistency(sha, c, checkpoints) && KeyOfConsistency(c.value) == key;
    item := c.value;
    SameDigestSameCore(sha, oracle, digestOf, bundle, older,
                       FindCheckpoint(checkpoints, item.oldCheckpointDigest, item.ledger).value);
    SameDigestSameCore(sha, oracle, digestOf, bundle, newer,
                       FindCheckpoint(checkpoints, item.newCheckpointDigest, item.ledger).value);
  }

  lemma {:induction false} SameDigestSameCore(
    sha: Hasher, oracle: SignatureOracle, digestOf: CoreDigest, bundle: Bundle, a: Checkpoint, b: Checkpoint)
    requires AllBound(sha, oracle, digestOf, bundle) && CoresDistinct(digestOf, bundle)
    requires Some(a) in bundle.checkpointCandidates && Some(b) in bundle.checkpointCandidates
    requires a.checkpointDigest == b.checkpointDigest
    ensures a.core == b.core
  {
    assert CandidateBound(sha, oracle, digestOf, bundle, Some(a), GoodKeys(sha, bundle));
    assert CandidateBound(sha, oracle, digestOf, bundle, Some(b), GoodKeys(sha, bundle));
    BoundDigest(sha, oracle, digestOf, bundle, a);
    BoundDigest(sha, oracle, digestOf, bundle, b);
    assert a in Present(bundle.checkpointCandidates) && b in Present(bundle.checkpointCandidates);
  }

  /** Everything hashed while verifying a bundle's consistency proofs. */
  ghost predicate HashedByProofs(
    sha: Hasher, candidates: seq<Option<ConsistencyItem>>, checkpoints: seq<Checkpoint>, inputs: set<Bytes>) {
    forall c: Option<ConsistencyItem> :: c in candidates && GoodConsistency(sha, c, checkpoints) ==>
      var older := FindCheckpoint(checkpoints, c.value.oldCheckpointDigest, c.value.ledger).value;
      1 <= c.value.oldTreeSize <= c.value.newTreeSize ==>
        ConsistencyInputs(sha, c.value.oldTreeSize, c.value.newTreeSize, Sha256(older.core.rootDigest), Texts(c.value.auditPath))
        <= inputs
  }

  /** In a valid bundle, of two checkpoints next to each other in size the newer names the older as
      its predecessor, or the older's root is the root of a prefix of whatever leaves the newer's
      root stands for. */
  lemma {:induction false} NeighboursAreBound(
    sha: Hasher, inputs: set<Bytes>, oracle: SignatureOracle, digestOf: CoreDigest, bundle: Bundle,
    candidates: seq<Option<ConsistencyItem>>, ledger: LedgerRef, i: nat, leaves: seq<Digest>)
    requires AllBound(sha, oracle, digestOf, bundle) && CoresDistinct(digestOf, bundle)
    requires CollisionFree(sha, inputs) && RootInputs(sha, leaves) <= inputs
    requires var checkpoints := Present(bundle.checkpointCandidates);
      && HashedByProofs(sha, candidates, checkpoints, inputs)
      && LedgerLinked(checkpoints, ledger, ConsistencyKeys(sha, candidates, checkpoints))
      && var sorted := SortBySize(Group(checkpoints, ledger));
      && i + 1 < |sorted| && |leaves| == sorted[i + 1].core.treeSize && Root(sha, leaves) == sorted[i + 1].core.rootDigest
    ensures var sorted := SortBySize(Group(Present(bundle.checkpointCandidates), ledger));
      var (older, newer) := (sorted[i], sorted[i + 1]);
      || newer.core.previousCheckpointDigest == Some(older.checkpointDigest)
      || (1 <= older.core.treeSize < newer.core.treeSize
          && older.core.rootDigest == Root(sha, leaves[..older.core.treeSize]))
  {
    var checkpoints := Present(bundle.checkpointCandidates);
    var group := Group(checkpoints, ledger);
    var sorted := SortBySize(group);
    var keys := ConsistencyKeys(sha, candidates, checkpoints);
    SortAscends(group);
    var (older, newer) := (sorted[i], sorted[i + 1]);
    assert Linked(sorted, sorted[i + 1 - 1], sorted[i + 1], keys);
    if newer.core.previousCheckpointDigest != Some(older.checkpointDigest) {
      assert older in sorted && newer in sorted;
      var item := ConsistentPair(sha, oracle, digestOf, bundle, candidates, older, newer);
      ProofBinds(sha, inputs, candidates, checkpoints, item, older, newer, leaves);
    }
  }

  lemma {:induction false} ProofBinds(
    sha: Hasher, inputs: set<Bytes>, candidates: seq<Option<ConsistencyItem>>, checkpoints: seq<Checkpoint>,
    item: ConsistencyItem, older: Checkpoint, newer: Checkpoint, leaves: seq<Digest>)
    requires CollisionFree(sha, inputs) && RootInputs(sha, leaves) <= inputs
    requires HashedByProofs(sha, candidates, checkpoints, inputs)
    requires Some(item) in candidates && GoodConsistency(sha, Some(item), checkpoints)
    requires item.oldTreeSize == older.core.treeSize && item.newTreeSize == newer.core.treeSize
    requires FindCheckpoint(checkpoints, item.oldCheckpointDigest, item.ledger).value.core == older.core
    requires ConsistencyAccepted(sha, older.core.treeSize, newer.core.treeSize, Sha256(older.core.rootDigest),
                                 Sha256(newer.core.rootDigest), Texts(item.auditPath))
    requires |leaves| == newer.core.treeSize && Root(sha, leaves) == newer.core.rootDigest
    ensures 1 <= older.core.treeSize <= newer.core.treeSize
    ensures older.core.rootDigest == Root(sha, leaves[..older.core.treeSize])
  {
    MerkleConsistency.ConsistencyExact(
      sha, inputs, leaves, item.oldTreeSize, Sha256(older.core.rootDigest), Texts(item.auditPath));
  }
}
