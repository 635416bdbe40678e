/** Delegation chain validation, src/delegation/chain-enforcement.ts: hop-by-hop checks and what
    they mean for the whole chain. */
module ChainEnforcement {
  import opened Wrappers
  import opened ScopeMatcher

  type Did = string

  datatype Audience = NoAudience | One(did: Did) | Many(dids: seq<Did>)

  /** A well-formed delegation credential. Deadlines are the finite ones, in milliseconds. */
  datatype Credential = Credential(
    id: string, parentId: Option<string>, issuerDid: Did, subjectDid: Did, signerDid: Option<Did>,
    scopes: seq<string>, constraintScopes: seq<string>, crispScopes: seq<Scope>, audience: Audience,
    hasStatus: bool, expirationDate: Option<int>, notAfter: Option<int>)

  // ---- Scope authority ---------------------------------------------------------------

  function FlatScopes(c: Credential): seq<string> {
    c.scopes + c.constraintScopes
  }

  function AsExact(flat: seq<string>): (scopes: seq<Scope>)
    ensures |scopes| == |flat|
    ensures forall i :: 0 <= i < |flat| ==> scopes[i] == Scope(flat[i], EXACT)
  {
    seq(|flat|, i requires 0 <= i < |flat| => Scope(flat[i], EXACT))
  }

  /** `scopeAuthority`: flat scopes as exact matchers, then the matchers. */
  function Authority(c: Credential): seq<Scope> {
    AsExact(FlatScopes(c)) + c.crispScopes
  }

  lemma {:induction false} ExactEntries(flat: seq<string>, e: Scope)
    ensures e in AsExact(flat) <==> e.Scope? && e.matcher == EXACT && e.resource in flat
  {
    if e.Scope? && e.matcher == EXACT && e.resource in flat {
      var i :| 0 <= i < |flat| && flat[i] == e.resource;
      assert AsExact(flat)[i] == e;
    }
  }

  lemma {:induction false} AuthorityEntries(c: Credential, e: Scope)
    ensures e in Authority(c) <==> e in c.crispScopes || (e.Scope? && e.matcher == EXACT && e.resource in FlatScopes(c))
  {
    ExactEntries(FlatScopes(c), e);
  }

  /** Some entry of the credential's authority grants the value. */
  predicate CredentialGrants(regex: Regex, c: Credential, value: string) {
    exists e :: e in Authority(c) && Grants(regex, e, value)
  }

  /** A credential's flat scopes, those of its constraints included, are exact entries of its authority,
      next to its matchers; there is nothing else in it. */
  lemma {:induction false} AuthorityExactly(c: Credential, e: Scope)
    ensures e in Authority(c) <==>
      e in c.crispScopes || exists f :: (f in c.scopes || f in c.constraintScopes) && e == Scope(f, "exact")
  {
    AuthorityEntries(c, e);
  }

  /** So a credential grants its flat scopes and what its matchers grant. */
  lemma {:induction false} GrantsExactly(regex: Regex, c: Credential, value: string)
    ensures CredentialGrants(regex, c, value) <==>
      value in c.scopes || value in c.constraintScopes || exists e :: e in c.crispScopes && Grants(regex, e, value)
  {
    forall e
      ensures e in Authority(c) <==> e in c.crispScopes || (e.Scope? && e.matcher == EXACT && e.resource in FlatScopes(c))
    {
      AuthorityEntries(c, e);
    }
    if value in FlatScopes(c) {
      assert Scope(value, EXACT) in Authority(c) && Grants(regex, Scope(value, EXACT), value);
    }
  }

  /** The first entry that does not answer no answers this. */
  predicate FirstAnswer(regex: Regex, scopes: seq<Scope>, value: string, n: nat, answer: Option<bool>)
    requires n < |scopes|
  {
    && Answer(regex, scopes[n], value) == answer
    && forall k :: 0 <= k < n ==> Answer(regex, scopes[k], value) == Some(false)
  }

  predicate ThrowsFirst(regex: Regex, scopes: seq<Scope>, value: string) {
    exists n :: 0 <= n < |scopes| && FirstAnswer(regex, scopes, value, n, None)
  }

  predicate PatternGrantsFirst(regex: Regex, scopes: seq<Scope>, value: string) {
    exists n :: 0 <= n < |scopes| && IsPattern(scopes[n]) && FirstAnswer(regex, scopes, value, n, Some(true))
  }

  datatype Satisfaction = Satisfaction(satisfied: bool, usedNonExactMatcher: bool)

  /** `scopeSatisfies`; None is a throw. */
  method ScopeSatisfies(regex: Regex, required: string, c: Credential) returns (s: Option<Satisfaction>)
    ensures s.None? <==> required !in FlatScopes(c) && ThrowsFirst(regex, c.crispScopes, required)
    ensures s.Some? ==> (s.value.satisfied <==> CredentialGrants(regex, c, required))
    ensures s.Some? ==>
      (s.value.usedNonExactMatcher <==> required !in FlatScopes(c) && PatternGrantsFirst(regex, c.crispScopes, required))
  {
    if required in FlatScopes(c) {
      AuthorityEntries(c, Scope(required, EXACT));
      return Some(Satisfaction(true, false));
    }
    for n := 0 to |c.crispScopes|
      invariant forall k :: 0 <= k < n ==> Answer(regex, c.crispScopes[k], required) == Some(false)
    {
      var e := c.crispScopes[n];
      var answer := Answer(regex, e, required);
      if answer != Some(false) {
        FirstIsUnique(regex, c.crispScopes, required, n);
        AuthorityEntries(c, e);
        return if answer.None? then None else Some(Satisfaction(true, IsPattern(e)));
      }
    }
    forall e | e in Authority(c)
      ensures !Grants(regex, e, required)
    {
      AuthorityEntries(c, e);
    }
    return Some(Satisfaction(false, false));
  }

  lemma {:induction false} FirstIsUnique(regex: Regex, scopes: seq<Scope>, value: string, n: nat)
    requires n < |scopes| && Answer(regex, scopes[n], value) != Some(false)
    requires FirstAnswer(regex, scopes, value, n, Answer(regex, scopes[n], value))
    ensures forall m, answer ::
      (0 <= m < |scopes| && answer != Some(false) && FirstAnswer(regex, scopes, value, m, answer)) ==>
      (m == n && answer == Answer(regex, scopes[n], value))
  {
  }

  datatype Attenuation = Attenuates | OmitsScopes | WidensMatchers | WidensScopes

  function ValidateScopeAttenuation(regex: Regex, parent: Credential, child: Credential): Attenuation {
    var authority := Authority(parent);
    if authority == [] then Attenuates
    else if FlatScopes(child) == [] && child.crispScopes == [] then OmitsScopes
    else if exists e :: e in child.crispScopes && !AuthorityContains(regex, authority, e) then WidensMatchers
    else if exists f :: f in FlatScopes(child) && !AuthorityContains(regex, authority, Scope(f, EXACT)) then WidensScopes
    else Attenuates
  }

  /** A child attenuates a restricted parent exactly when it has scopes and each of them, flat or
      matcher, is proven inside the parent's authority. */
  lemma {:induction false} AttenuationIsContainment(regex: Regex, parent: Credential, child: Credential)
    ensures ValidateScopeAttenuation(regex, parent, child) == Attenuates <==>
      Authority(parent) == []
      || (Authority(child) != [] && forall e :: e in Authority(child) ==> AuthorityContains(regex, Authority(parent), e))
  {
    forall e
      ensures e in Authority(child) <==>
        e in child.crispScopes || (e.Scope? && e.matcher == EXACT && e.resource in FlatScopes(child))
    {
      AuthorityEntries(child, e);
    }
    assert forall f :: f in FlatScopes(child) ==> Scope(f, EXACT) in Authority(child);
  }

  /** What a refused attenuation reports: scopes left out, a matcher outside the parent's authority, or,
      with all matchers inside it, a flat scope outside. */
  lemma {:induction false} RefusalsAre(regex: Regex, parent: Credential, child: Credential)
    ensures var (answer, authority) := (ValidateScopeAttenuation(regex, parent, child), Authority(parent));
      && (answer == OmitsScopes <==> authority != [] && Authority(child) == [])
      && (answer == WidensMatchers <==>
            authority != [] && exists e :: e in child.crispScopes && !AuthorityContains(regex, authority, e))
      && (answer == WidensScopes ==>
            exists f :: (f in child.scopes || f in child.constraintScopes)
                        && !AuthorityContains(regex, authority, Scope(f, "exact")))
  {
  }

  // ---- The chain walk ----------------------------------------------------------------

  datatype Revocation = NotRevoked | Revoked | CheckThrows

  datatype Resolution = NoResolver | ResolverThrows | Resolved(chain: seq<Credential>)

  /** The injected ports. `verify` is told whether the signature check is skipped. */
  datatype Deps = Deps(
    serverDid: Did, verify: (Credential, bool) -> bool, statusListConfigured: bool,
    revocation: Option<string -> Revocation>, trustedRootIssuers: Option<seq<Did>>, maxChainLength: Option<int>)

  datatype Verdict = Invalid | Accepted(expiresAt: Option<int>, warned: bool)

  predicate Names(parentId: Option<string>) {
    parentId.Some? && parentId.value != ""
  }

  predicate AudienceOk(c: Credential, serverDid: Did) {
    match c.audience
    case NoAudience => true
    case One(did) => did == "" || did == serverDid
    case Many(dids) => serverDid in dids
  }

  predicate AudiencePresent(c: Credential) {
    match c.audience case NoAudience => false case One(did) => did != "" case Many(_) => true
  }

  /** What every credential of a chain must satisfy by itself. */
  predicate CredentialOk(deps: Deps, c: Credential, skipSignature: bool) {
    && (c.hasStatus ==> deps.statusListConfigured)
    && deps.verify(c, skipSignature)
    && AudienceOk(c, deps.serverDid)
    && (Names(c.parentId) ==> AudiencePresent(c))
  }

  predicate RootOk(deps: Deps, c: Credential) {
    && !Names(c.parentId)
    && (deps.trustedRootIssuers.Some? ==> c.signerDid.Some? && c.signerDid.value in deps.trustedRootIssuers.value)
  }

  /** One hop: the child names its parent, is issued and signed by its subject, and attenuates it. */
  predicate HopOk(regex: Regex, parent: Credential, child: Credential) {
    && child.parentId == Some(parent.id)
    && child.issuerDid == parent.subjectDid
    && child.signerDid == Some(parent.subjectDid)
    && ValidateScopeAttenuation(regex, parent, child) == Attenuates
  }

  /** The first n credentials of a chain pass the walk. */
  ghost predicate WalkOk(regex: Regex, deps: Deps, chain: seq<Credential>, skipLeaf: bool, n: nat)
    requires n <= |chain|
  {
    && (forall i :: 0 <= i < n ==> CredentialOk(deps, chain[i], skipLeaf && i == |chain| - 1))
    && (n > 0 ==> RootOk(deps, chain[0]))
    && (forall i, j :: 0 <= i < j < n && j == i + 1 ==> HopOk(regex, chain[i], chain[j]))
    && (forall i, j :: 0 <= i < j < n ==> chain[i].id != chain[j].id)
  }

  function Deadlines(c: Credential): seq<int> {
    (if c.expirationDate.Some? then [c.expirationDate.value] else [])
    + if c.notAfter.Some? then [c.notAfter.value] else []
  }

  /** The earliest deadline of the first n credentials, if there is any. */
  ghost predicate Earliest(chain: seq<Credential>, n: nat, expiresAt: Option<int>)
    requires n <= |chain|
  {
    && (forall i, d :: 0 <= i < n && d in Deadlines(chain[i]) ==> expiresAt.Some? && expiresAt.value <= d)
    && (expiresAt.Some? ==> exists i :: 0 <= i < n && expiresAt.value in Deadlines(chain[i]))
  }

  function Sooner(expiresAt: Option<int>, deadline: Option<int>): Option<int> {
    if deadline.None? then expiresAt
    else if expiresAt.None? || deadline.value < expiresAt.value then deadline
    else expiresAt
  }

  /** The chain to walk, root first, ending in the presented leaf; None when it cannot be formed. */
  function ChainFor(leaf: Credential, resolution: Resolution): Option<seq<Credential>> {
    if !Names(leaf.parentId) then Some([leaf])
    else
      match resolution
      case NoResolver => None
      case ResolverThrows => None
      case Resolved(chain) =>
        if chain == [] || exists i :: 0 <= i < |chain| - 1 && chain[i].id == leaf.id then None
        else if chain[|chain| - 1].id == leaf.id then Some(chain[..|chain| - 1] + [leaf])
        else Some(chain + [leaf])
  }

  predicate LengthOk(deps: Deps, length: nat) {
    deps.maxChainLength.Some? ==> 1 <= deps.maxChainLength.value && length <= deps.maxChainLength.value
  }

  ghost predicate NoneRevoked(deps: Deps, chain: seq<Credential>) {
    deps.revocation.Some? ==> forall i :: 0 <= i < |chain| ==> deps.revocation.value(chain[i].id) == NotRevoked
  }

  /** When a presented leaf is accepted. */
  ghost predicate ChainAccepted(
    regex: Regex, deps: Deps, leaf: Credential, resolution: Resolution, skipSignature: bool) {
    var chain := ChainFor(leaf, resolution);
    && chain.Some?
    && LengthOk(deps, |chain.value|)
    && WalkOk(regex, deps, chain.value, skipSignature, |chain.value|)
    && NoneRevoked(deps, chain.value)
  }

  /** The chain that is walked: the presented leaf alone when it has no parent, or behind the ancestors
      that were resolved, where it takes the place of a copy of itself at their end; a copy anywhere
      else, no ancestors, or no resolution at all is refused. */
  lemma {:induction false} FormsExactly(
    leaf: Credential, resolution: Resolution, ancestors: seq<Credential>, copy: Credential, more: seq<Credential>)
    requires (forall a :: a in ancestors ==> a.id != leaf.id) && copy.id == leaf.id
    ensures leaf.parentId == None || leaf.parentId == Some("") ==> ChainFor(leaf, resolution) == Some([leaf])
    ensures leaf.parentId != None && leaf.parentId != Some("") ==>
      && ChainFor(leaf, NoResolver) == None && ChainFor(leaf, ResolverThrows) == None
      && ChainFor(leaf, Resolved([])) == None
      && (ancestors != [] ==> ChainFor(leaf, Resolved(ancestors)) == Some(ancestors + [leaf]))
      && ChainFor(leaf, Resolved(ancestors + [copy])) == Some(ancestors + [leaf])
      && (more != [] ==> ChainFor(leaf, Resolved(ancestors + [copy] + more)) == None)
  {
    var (ended, longer) := (ancestors + [copy], ancestors + [copy] + more);
    assert ended[..|ended| - 1] == ancestors && ended[|ended| - 1] == copy;
    assert forall i :: 0 <= i < |ended| - 1 ==> ended[i] == ancestors[i] && ancestors[i] in ancestors;
    assert longer[|ancestors|] == copy;
    assert ancestors != [] ==> ancestors[|ancestors| - 1] in ancestors;
  }

  /** What a credential has to show by itself: it verifies, perhaps without its signature, has no status
      that cannot be looked up, and is addressed to this server, by name unless it has no parent. */
  lemma {:induction false} CredentialExactly(deps: Deps, c: Credential, skipSignature: bool)
    ensures CredentialOk(deps, c, skipSignature) <==>
      && deps.verify(c, skipSignature)
      && (c.hasStatus ==> deps.statusListConfigured)
      && (c.audience.One? ==> c.audience.did == "" || c.audience.did == deps.serverDid)
      && (c.audience.Many? ==> deps.serverDid in c.audience.dids)
      && (c.parentId == None || c.parentId == Some("") || (c.audience != NoAudience && c.audience != One("")))
  {
  }

  /** Everything that an accepted chain has to show: it is short enough; each of its credentials shows
      the above, only the leaf perhaps without its signature; the root has no parent and a trusted
      signer; each child names its parent, is issued and signed by the parent's subject and
      attenuates it; no id repeats; and none of them is revoked. */
  lemma {:induction false} AcceptedExactly(
    regex: Regex, deps: Deps, leaf: Credential, resolution: Resolution, skipSignature: bool, chain: seq<Credential>)
    requires ChainFor(leaf, resolution) == Some(chain)
    ensures ChainAccepted(regex, deps, leaf, resolution, skipSignature) <==>
      && (deps.maxChainLength.Some? ==> |chain| <= deps.maxChainLength.value)
      && (forall i :: 0 <= i < |chain| ==> CredentialOk(deps, chain[i], skipSignature && i == |chain| - 1))
      && (chain[0].parentId == None || chain[0].parentId == Some(""))
      && (deps.trustedRootIssuers.Some? ==>
            chain[0].signerDid.Some? && chain[0].signerDid.value in deps.trustedRootIssuers.value)
      && (forall i, j :: 0 <= i < j < |chain| && j == i + 1 ==>
            && chain[j].parentId == Some(chain[i].id)
            && chain[j].issuerDid == chain[i].subjectDid && chain[j].signerDid == Some(chain[i].subjectDid)
            && ValidateScopeAttenuation(regex, chain[i], chain[j]) == Attenuates)
      && (forall i, j :: 0 <= i < j < |chain| ==> chain[i].id != chain[j].id)
      && (deps.revocation.Some? ==> forall i :: 0 <= i < |chain| ==> deps.revocation.value(chain[i].id) == NotRevoked)
  {
  }

  /** The deadline of an accepted chain is one of its credentials' deadlines and none is earlier. */
  lemma {:induction false} EarliestIs(chain: seq<Credential>, n: nat, expiresAt: Option<int>, i: nat)
    requires i < n <= |chain| && Earliest(chain, n, expiresAt)
    ensures forall d :: chain[i].expirationDate == Some(d) || chain[i].notAfter == Some(d) ==>
      expiresAt.Some? && expiresAt.value <= d
    ensures expiresAt.Some? ==>
      exists k :: 0 <= k < n && (chain[k].expirationDate == expiresAt || chain[k].notAfter == expiresAt)
  {
    forall d: int | chain[i].expirationDate == Some(d) || chain[i].notAfter == Some(d)
      ensures expiresAt.Some? && expiresAt.value <= d
    {
      assert d in Deadlines(chain[i]);
    }
    if expiresAt.Some? {
      var k :| 0 <= k < n && expiresAt.value in Deadlines(chain[k]);
      assert chain[k].expirationDate == expiresAt || chain[k].notAfter == expiresAt;
    }
  }

  lemma {:induction false} WalkStep(regex: Regex, deps: Deps, chain: seq<Credential>, skipLeaf: bool, n: nat)
    requires n < |chain| && WalkOk(regex, deps, chain, skipLeaf, n)
    ensures WalkOk(regex, deps, chain, skipLeaf, n + 1) <==>
      && CredentialOk(deps, chain[n], skipLeaf && n == |chain| - 1)
      && (if n == 0 then RootOk(deps, chain[0]) else HopOk(regex, chain[n - 1], chain[n]))
      && (forall i :: 0 <= i < n ==> chain[i].id != chain[n].id)
  {
  }

  lemma {:induction false} WalkFails(regex: Regex, deps: Deps, chain: seq<Credential>, skipLeaf: bool, n: nat)
    requires n <= |chain| && !WalkOk(regex, deps, chain, skipLeaf, n)
    ensures !WalkOk(regex, deps, chain, skipLeaf, |chain|)
  {
  }

  /** The checks of one turn of the walk, in the source's order. */
  method CheckNext(
    regex: Regex, deps: Deps, credential: Credential, previous: Option<Credential>, seenIds: set<string>, skipSignature: bool)
    returns (ok: bool)
    ensures ok <==>
      && credential.id !in seenIds
      && CredentialOk(deps, credential, skipSignature)
      && (if previous.None? then RootOk(deps, credential) else HopOk(regex, previous.value, credential))
  {
    if credential.id in seenIds
       || (credential.hasStatus && !deps.statusListConfigured)
       || !deps.verify(credential, skipSignature)
       || !AudienceOk(credential, deps.serverDid)
       || (Names(credential.parentId) && !AudiencePresent(credential)) {
      return false;
    }
    if previous.None? {
      return !Names(credential.parentId)
             && (deps.trustedRootIssuers.None?
                 || (credential.signerDid.Some? && credential.signerDid.value in deps.trustedRootIssuers.value));
    }
    if credential.parentId != Some(previous.value.id)
       || credential.issuerDid != previous.value.subjectDid
       || credential.signerDid != Some(previous.value.subjectDid) {
      return false;
    }
    return ValidateScopeAttenuation(regex, previous.value, credential) == Attenuates;
  }

  lemma {:induction false} EarliestStep(chain: seq<Credential>, n: nat, expiresAt: Option<int>)
    requires n < |chain| && Earliest(chain, n, expiresAt)
    ensures Earliest(chain, n + 1, Sooner(Sooner(expiresAt, chain[n].expirationDate), chain[n].notAfter))
  {
  }

  /** The walk of `validateDelegationChain` over a formed chain, root first. */
  method WalkChain(regex: Regex, deps: Deps, chain: seq<Credential>, skipLeaf: bool) returns (verdict: Verdict)
    requires chain != []
    ensures verdict.Accepted? <==> WalkOk(regex, deps, chain, skipLeaf, |chain|)
    ensures verdict.Accepted? ==>
      && Earliest(chain, |chain|, verdict.expiresAt)
      && (verdict.warned <==> chain[0].signerDid != Some(chain[0].issuerDid))
  {
    var expiresAt: Option<int> := None;
    var warned := false;
    var seenIds: set<string> := {};
    var previous: Option<Credential> := None;
    for n := 0 to |chain|
      invariant WalkOk(regex, deps, chain, skipLeaf, n)
      invariant previous == if n == 0 then None else Some(chain[n - 1])
      invariant seenIds == set i | 0 <= i < n :: chain[i].id
      invariant Earliest(chain, n, expiresAt)
      invariant n > 0 ==> (warned <==> chain[0].signerDid != Some(chain[0].issuerDid))
    {
      var credential := chain[n];
      WalkStep(regex, deps, chain, skipLeaf, n);
      var ok := CheckNext(regex, deps, credential, previous, seenIds, skipLeaf && n == |chain| - 1);
      if !ok {
        WalkFails(regex, deps, chain, skipLeaf, n + 1);
        return Invalid;
      }
      seenIds := seenIds + {credential.id};
      EarliestStep(chain, n, expiresAt);
      expiresAt := Sooner(Sooner(expiresAt, credential.expirationDate), credential.notAfter);
      if previous.None? {
        warned := credential.signerDid != Some(credential.issuerDid);
      }
      previous := Some(credential);
    }
    return Accepted(expiresAt, warned);
  }

  method ValidateDelegationChain(
    regex: Regex, deps: Deps, leaf: Option<Credential>, resolution: Resolution, skipSignature: bool)
    returns (verdict: Verdict)
    ensures verdict.Accepted? <==> leaf.Some? && ChainAccepted(regex, deps, leaf.value, resolution, skipSignature)
    ensures verdict.Accepted? ==>
      var chain := ChainFor(leaf.value, resolution).value;
      && Earliest(chain, |chain|, verdict.expiresAt)
      && (verdict.warned <==> chain[0].signerDid != Some(chain[0].issuerDid))
  {
    if leaf.None? {
      return Invalid;
    }
    var formed := ChainFor(leaf.value, resolution);
    if formed.None? {
      return Invalid;
    }
    var chain := formed.value;
    if deps.maxChainLength.Some? && (deps.maxChainLength.value < 1 || |chain| > deps.maxChainLength.value) {
      return Invalid;
    }
    verdict := WalkChain(regex, deps, chain, skipSignature);
    if verdict.Invalid? {
      return;
    }
    if deps.revocation.Some? {
      for n := 0 to |chain|
        invariant forall i :: 0 <= i < n ==> deps.revocation.value(chain[i].id) == NotRevoked
      {
        if deps.revocation.value(chain[n].id) != NotRevoked {
          return Invalid;
        }
      }
    }
  }

  // ---- Containment over a whole chain ------------------------------------------------

  /** Hop by hop, no scope of a child shares its key with an entry that does not contain it. */
  ghost predicate HonestChain(regex: Regex, chain: seq<Credential>) {
    forall i, j, e :: 0 <= i < j < |chain| && j == i + 1 && e in Authority(chain[j]) ==>
      HonestKey(regex, Authority(chain[i]), e)
  }

  /** Hop by hop, no prefix of a child is contained in a path prefix of its parent. */
  ghost predicate NoPrefixUnderPath(regex: Regex, chain: seq<Credential>) {
    forall i, j, e :: 0 <= i < j < |chain| && j == i + 1 && e in Authority(chain[j]) ==>
      !PrefixUnderPath(regex, Authority(chain[i]), e)
  }

  /** Chains whose matcher names have no NUL character, such as the known kinds, are honest. */
  lemma {:induction false} PlainChainIsHonest(regex: Regex, chain: seq<Credential>)
    requires forall i :: 0 <= i < |chain| ==> PlainMatchers(Authority(chain[i]))
    ensures HonestChain(regex, chain)
  {
    forall i, j, e | 0 <= i < j < |chain| && j == i + 1 && e in Authority(chain[j])
      ensures HonestKey(regex, Authority(chain[i]), e)
    {
      PlainKeysAreHonest(regex, Authority(chain[i]), e);
    }
  }

  lemma {:induction false} HopContains(regex: Regex, parent: Credential, child: Credential, value: string)
    requires ValidateScopeAttenuation(regex, parent, child) == Attenuates && Authority(parent) != []
    requires forall e :: e in Authority(child) ==> HonestKey(regex, Authority(parent), e)
    requires !HasDotSegment(value) || forall e :: e in Authority(child) ==> !PrefixUnderPath(regex, Authority(parent), e)
    ensures Authority(child) != []
    ensures CredentialGrants(regex, child, value) ==> CredentialGrants(regex, parent, value)
  {
    AttenuationIsContainment(regex, parent, child);
    if CredentialGrants(regex, child, value) {
      var e :| e in Authority(child) && Grants(regex, e, value);
      WiderAuthorityGrants(regex, Authority(parent), e, value);
    }
  }

  /** Restriction passes down a chain and grants pass up it. */
  lemma {:induction false} GrantsPassUp(restricted: seq<bool>, grants: seq<bool>, i: nat, k: nat)
    requires |restricted| == |grants| && i <= k < |grants|
    requires forall a, b :: 0 <= a < b < |grants| && b == a + 1 && restricted[a] ==>
      restricted[b] && (grants[b] ==> grants[a])
    requires restricted[i] && grants[k]
    ensures restricted[k] && grants[i]
    decreases k - i
  {
    if i < k {
      GrantsPassUp(restricted, grants, i + 1, k);
    }
  }

  /** Of an accepted chain with honest keys, whatever the leaf grants, every ancestor that has scopes
      grants too: every value without dot segments, and every value at all when no hop puts a
      prefix under a path prefix. */
  lemma {:induction false} LeafWithinEveryAncestor(
    regex: Regex, deps: Deps, leaf: Credential, resolution: Resolution, skipSignature: bool, i: nat, value: string)
    requires ChainAccepted(regex, deps, leaf, resolution, skipSignature)
    requires HonestChain(regex, ChainFor(leaf, resolution).value)
    requires !HasDotSegment(value) || NoPrefixUnderPath(regex, ChainFor(leaf, resolution).value)
    requires i < |ChainFor(leaf, resolution).value| && Authority(ChainFor(leaf, resolution).value[i]) != []
    requires CredentialGrants(regex, leaf, value)
    ensures CredentialGrants(regex, ChainFor(leaf, resolution).value[i], value)
  {
    var chain := ChainFor(leaf, resolution).value;
    assert chain[|chain| - 1] == leaf;
    var restricted := seq(|chain|, k requires 0 <= k < |chain| => Authority(chain[k]) != []);
    var grants := seq(|chain|, k requires 0 <= k < |chain| => CredentialGrants(regex, chain[k], value));
    forall a, b | 0 <= a < b < |chain| && b == a + 1 && restricted[a]
      ensures restricted[b] && (grants[b] ==> grants[a])
    {
      assert HopOk(regex, chain[a], chain[b]);
      HopContains(regex, chain[a], chain[b], value);
    }
    GrantsPassUp(restricted, grants, i, |chain| - 1);
  }

  /** Without the restriction to values free of dot segments the containment fails: a one-hop
      attenuation lets a child grant what its parent does not. */
  lemma {:induction false} DotSegmentsEscape(regex: Regex, parent: Credential, child: Credential)
    requires Authority(parent) == [Scope("a", PATH_PREFIX)] && Authority(child) == [Scope("a/", PREFIX)]
    ensures ValidateScopeAttenuation(regex, parent, child) == Attenuates
    ensures CredentialGrants(regex, child, "a/..") && !CredentialGrants(regex, parent, "a/..")
  {
    AttenuationIsContainment(regex, parent, child);
    DotSegmentExample(regex);
    var (outer, inner) := (Scope("a", PATH_PREFIX), Scope("a/", PREFIX));
    FastCheckParts(regex, Authority(parent), inner);
    assert outer in Authority(parent) && inner in Authority(child);
  }

  /** Without honest keys it fails too: a hop is accepted although its child grants what its parent
      does not. */
  lemma {:induction false} NulKeysEscape(regex: Regex, parent: Credential, child: Credential)
    requires Authority(parent) == [Scope("b", "prefix\0a")] && Authority(child) == [Scope("a\0b", PREFIX)]
    ensures ValidateScopeAttenuation(regex, parent, child) == Attenuates
    ensures CredentialGrants(regex, child, "a\0bx") && !CredentialGrants(regex, parent, "a\0bx")
  {
    AttenuationIsContainment(regex, parent, child);
    NulKeyExample(regex);
    assert Scope("a\0b", PREFIX) in Authority(child);
  }
}
