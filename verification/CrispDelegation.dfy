/** CRISP attenuation of delegation chains, src/card/delegation.ts. */
module CrispDelegation {
  import opened Wrappers
  import opened Decimal

  type Did = string

  /** A parsed date in milliseconds, or None when it cannot be read. */
  type ParseDate = string -> Option<int>

  const VALID_UNTIL := "ValidUntil"
  const MAX_AMOUNT := "MaxAmount"

  /** `rest` stands for all other members, in sorted-key form. */
  datatype Caveat = Caveat(
    kind: string, date: Option<string>, limit: Option<string>, currency: Option<string>, rest: string)

  datatype Capability = Capability(
    id: string, controller: Option<Did>, invoker: Option<Did>, parentCapability: string,
    invocationTarget: string, allowedAction: seq<string>, caveats: seq<Caveat>)

  datatype Credential = Credential(
    issuer: Did, validFrom: Option<string>, validUntil: Option<string>, subject: Capability)

  datatype Context = Context(
    resourceOwner: Option<Did>, resource: Option<string>, maxChainLength: Option<int>, now: int)

  datatype Reason =
    | EmptyChain
    | LengthNotPositive
    | TooLong
    | RootParentMismatch
    | UnexpectedResource
    | UnexpectedOwner
    | ActionEscalation
    | CaveatBroadened(kind: string)
    | ValidUntilBroadened
    | InvokerNotIssuer
    | ParentCapabilityMismatch
    | TargetDrift
    | UnparseableTime(hop: nat)
    | Expired(hop: nat)
    | NotYetValid(hop: nat)

  function InvokerDid(c: Credential): Option<Did> {
    if c.subject.invoker.Some? then c.subject.invoker else c.subject.controller
  }

  predicate DateLte(parse: ParseDate, child: string, parent: string) {
    parse(child).Some? && parse(parent).Some? && parse(child).value <= parse(parent).value
  }

  /** `child` is at least as narrow as `parent` for the same caveat. */
  predicate CaveatNarrows(parse: ParseDate, parent: Caveat, child: Caveat) {
    if parent.kind != child.kind then false
    else if parent.kind == VALID_UNTIL then
      parent.date.Some? && child.date.Some? && DateLte(parse, child.date.value, parent.date.value)
    else if parent.kind == MAX_AMOUNT then
      && (parent.currency.None? || parent.currency == child.currency)
      && parent.limit.Some? && child.limit.Some? && DecimalLte(child.limit.value, parent.limit.value)
    else parent == child
  }

  lemma {:induction false} NarrowsTransitive(parse: ParseDate, a: Caveat, b: Caveat, c: Caveat)
    requires CaveatNarrows(parse, a, b) && CaveatNarrows(parse, b, c)
    ensures CaveatNarrows(parse, a, c)
  {
    if a.kind == MAX_AMOUNT {
      DecimalLteTransitive(c.limit.value, b.limit.value, a.limit.value);
    }
  }

  /** What a caveat lets through: a payment of an amount in a currency, or an action at a time. */
  ghost predicate Permits(parse: ParseDate, caveat: Caveat, amount: real, currency: string, time: int) {
    if caveat.kind == VALID_UNTIL then
      caveat.date.Some? && parse(caveat.date.value).Some? && time <= parse(caveat.date.value).value
    else if caveat.kind == MAX_AMOUNT then
      && (caveat.currency.None? || caveat.currency.value == currency)
      && caveat.limit.Some? && DecimalParts(caveat.limit.value).Some?
      && amount <= Value(DecimalParts(caveat.limit.value).value)
    else true
  }

  /** A date or a limit that can be read. */
  predicate Readable(parse: ParseDate, caveat: Caveat) {
    if caveat.kind == VALID_UNTIL then caveat.date.Some? && parse(caveat.date.value).Some?
    else caveat.limit.Some? && DecimalParts(caveat.limit.value).Some?
  }

  /** The payment or moment at the edge of what a caveat permits. */
  ghost function Edge(parse: ParseDate, caveat: Caveat): (real, int)
    requires Readable(parse, caveat)
  {
    if caveat.kind == VALID_UNTIL then (0.0, parse(caveat.date.value).value)
    else (Value(DecimalParts(caveat.limit.value).value), 0)
  }

  /** A currency different from a pinned one. */
  function Other(currency: Option<string>): string {
    if currency == Some("") then "?" else ""
  }

  /** Narrowing is exact: a caveat of an unknown kind must be repeated as it is, and one of the two
      known kinds narrows another exactly when both can be read and it permits no more. */
  lemma {:induction false} NarrowsExactly(parse: ParseDate, parent: Caveat, child: Caveat)
    ensures parent.kind != VALID_UNTIL && parent.kind != MAX_AMOUNT ==>
      (CaveatNarrows(parse, parent, child) <==> child == parent)
    ensures parent.kind == VALID_UNTIL || parent.kind == MAX_AMOUNT ==>
      (CaveatNarrows(parse, parent, child) <==>
         && child.kind == parent.kind && Readable(parse, parent) && Readable(parse, child)
         && forall amount, currency, time ::
              Permits(parse, child, amount, currency, time) ==> Permits(parse, parent, amount, currency, time))
  {
    if parent.kind == MAX_AMOUNT && child.kind == MAX_AMOUNT && parent.limit.Some? && child.limit.Some? {
      DecimalLteIsExact(child.limit.value, parent.limit.value);
    }
    if child.kind == parent.kind && (parent.kind == VALID_UNTIL || parent.kind == MAX_AMOUNT)
       && Readable(parse, parent) && Readable(parse, child) {
      var (amount, time) := Edge(parse, child);
      var own := if child.currency.Some? then child.currency.value else Other(parent.currency);
      assert Permits(parse, child, amount, own, time);
    }
  }

  /** A narrower caveat permits nothing that the wider one refuses. */
  lemma {:induction false} NarrowerPermitsLess(
    parse: ParseDate, parent: Caveat, child: Caveat, amount: real, currency: string, time: int)
    requires CaveatNarrows(parse, parent, child) && Permits(parse, child, amount, currency, time)
    ensures Permits(parse, parent, amount, currency, time)
  {
    if parent.kind == MAX_AMOUNT {
      DecimalLteIsExact(child.limit.value, parent.limit.value);
    }
  }

  function If(condition: bool, reason: Reason): seq<Reason> {
    if condition then [reason] else []
  }

  function CaveatReasons(parse: ParseDate, parent: seq<Caveat>, child: seq<Caveat>): (reasons: seq<Reason>)
    ensures |reasons| == 0 <==> forall pc :: pc in parent ==> exists cc :: cc in child && CaveatNarrows(parse, pc, cc)
  {
    if parent == [] then []
    else
      assert parent[0] in parent && forall pc :: pc in parent <==> pc == parent[0] || pc in parent[1..];
      If(!exists cc :: cc in child && CaveatNarrows(parse, parent[0], cc), CaveatBroadened(parent[0].kind))
      + CaveatReasons(parse, parent[1..], child)
  }

  function ActionReasons(parent: seq<string>, child: seq<string>): seq<Reason> {
    If(exists action :: action in child && action !in parent, ActionEscalation)
  }

  /** Why `child` fails to attenuate `parent`; empty for a valid hop. */
  function Attenuates(parse: ParseDate, parent: Credential, child: Credential): seq<Reason> {
    var (p, c) := (parent.subject, child.subject);
    ActionReasons(p.allowedAction, c.allowedAction)
    + CaveatReasons(parse, p.caveats, c.caveats)
    + If(parent.validUntil.Some?
         && (child.validUntil.None? || !DateLte(parse, child.validUntil.value, parent.validUntil.value)), ValidUntilBroadened)
    + If(InvokerDid(parent) != Some(child.issuer), InvokerNotIssuer)
    + If(c.parentCapability != p.id, ParentCapabilityMismatch)
    + If(c.invocationTarget != p.invocationTarget, TargetDrift)
  }

  /** One hop that narrows in every respect. */
  predicate Narrows(parse: ParseDate, parent: Credential, child: Credential) {
    var (p, c) := (parent.subject, child.subject);
    && (forall action :: action in c.allowedAction ==> action in p.allowedAction)
    && (forall pc :: pc in p.caveats ==> exists cc :: cc in c.caveats && CaveatNarrows(parse, pc, cc))
    && (parent.validUntil.Some? ==>
          child.validUntil.Some? && DateLte(parse, child.validUntil.value, parent.validUntil.value))
    && InvokerDid(parent) == Some(child.issuer)
    && c.parentCapability == p.id
    && c.invocationTarget == p.invocationTarget
  }

  lemma {:induction false} NoReasonsMeansNarrows(parse: ParseDate, parent: Credential, child: Credential)
    ensures Attenuates(parse, parent, child) == [] <==> Narrows(parse, parent, child)
  {
    var (p, c) := (parent.subject, child.subject);
    assert |Attenuates(parse, parent, child)| ==
      |ActionReasons(p.allowedAction, c.allowedAction)| + |CaveatReasons(parse, p.caveats, c.caveats)|
      + (if parent.validUntil.Some?
            && (child.validUntil.None? || !DateLte(parse, child.validUntil.value, parent.validUntil.value)) then 1 else 0)
      + (if InvokerDid(parent) != Some(child.issuer) then 1 else 0)
      + (if c.parentCapability != p.id then 1 else 0)
      + (if c.invocationTarget != p.invocationTarget then 1 else 0);
  }

  /** What a reason says is wrong with one hop. */
  ghost predicate HopFault(parse: ParseDate, parent: Credential, child: Credential, reason: Reason) {
    var (p, c) := (parent.subject, child.subject);
    match reason
    case ActionEscalation => exists action :: action in c.allowedAction && action !in p.allowedAction
    case CaveatBroadened(kind) => exists pc :: Broadened(parse, p.caveats, c.caveats, kind, pc)
    case ValidUntilBroadened => parent.validUntil.Some?
      && (child.validUntil.Some? ==> !DateLte(parse, child.validUntil.value, parent.validUntil.value))
    case InvokerNotIssuer => InvokerDid(parent) != Some(child.issuer)
    case ParentCapabilityMismatch => c.parentCapability != p.id
    case TargetDrift => c.invocationTarget != p.invocationTarget
    case _ => false
  }

  /** A caveat of that kind that no caveat of the child narrows. */
  ghost predicate Broadened(parse: ParseDate, parent: seq<Caveat>, child: seq<Caveat>, kind: string, pc: Caveat) {
    pc in parent && pc.kind == kind && forall cc :: cc in child ==> !CaveatNarrows(parse, pc, cc)
  }

  lemma {:induction false} CaveatReasonsMean(
    parse: ParseDate, parent: seq<Caveat>, child: seq<Caveat>, reason: Reason)
    ensures reason in CaveatReasons(parse, parent, child) <==>
      reason.CaveatBroadened? && exists pc :: Broadened(parse, parent, child, reason.kind, pc)
  {
    if parent != [] {
      var (first, rest) := (parent[0], parent[1..]);
      CaveatReasonsMean(parse, rest, child, reason);
      assert forall pc :: pc in parent <==> pc == first || pc in rest;
      if reason.CaveatBroadened? {
        assert forall pc :: Broadened(parse, parent, child, reason.kind, pc) <==>
          Broadened(parse, rest, child, reason.kind, pc) || (pc == first && Broadened(parse, parent, child, reason.kind, first));
        assert Broadened(parse, parent, child, reason.kind, first) <==>
          reason == CaveatBroadened(first.kind) && !exists cc :: cc in child && CaveatNarrows(parse, first, cc);
      }
    }
  }

  /** The reasons of a hop are exactly its faults. */
  lemma {:induction false} HopReasonsMean(parse: ParseDate, parent: Credential, child: Credential, reason: Reason)
    ensures reason in Attenuates(parse, parent, child) <==> HopFault(parse, parent, child, reason)
  {
    CaveatReasonsMean(parse, parent.subject.caveats, child.subject.caveats, reason);
  }

  // ---- The wall clock ----------------------------------------------------------------

  /** A time that is readable and not before (or not after) `now`. */
  predicate NotPast(parse: ParseDate, text: string, now: int) {
    parse(text).Some? && now <= parse(text).value
  }

  predicate NotFuture(parse: ParseDate, text: string, now: int) {
    parse(text).Some? && parse(text).value <= now
  }

  predicate CaveatCurrent(parse: ParseDate, caveat: Caveat, now: int) {
    caveat.kind == VALID_UNTIL && caveat.date.Some? ==> NotPast(parse, caveat.date.value, now)
  }

  predicate Current(parse: ParseDate, c: Credential, now: int) {
    && (c.validUntil.Some? ==> NotPast(parse, c.validUntil.value, now))
    && (c.validFrom.Some? ==> NotFuture(parse, c.validFrom.value, now))
    && (forall caveat :: caveat in c.subject.caveats ==> CaveatCurrent(parse, caveat, now))
  }

  /** What a reason says is wrong with one time at a moment: `until` or `from` it is valid. */
  predicate UntilFault(parse: ParseDate, until: Option<string>, now: int, hop: nat, reason: Reason) {
    until.Some? && (if parse(until.value).None? then reason == UnparseableTime(hop)
                    else parse(until.value).value < now && reason == Expired(hop))
  }

  predicate FromFault(parse: ParseDate, from: Option<string>, now: int, hop: nat, reason: Reason) {
    from.Some? && (if parse(from.value).None? then reason == UnparseableTime(hop)
                   else parse(from.value).value > now && reason == NotYetValid(hop))
  }

  predicate CaveatFault(parse: ParseDate, caveat: Caveat, now: int, hop: nat, reason: Reason) {
    caveat.kind == VALID_UNTIL && UntilFault(parse, caveat.date, now, hop, reason)
  }

  predicate TimeFault(parse: ParseDate, c: Credential, now: int, hop: nat, reason: Reason) {
    || UntilFault(parse, c.validUntil, now, hop, reason)
    || FromFault(parse, c.validFrom, now, hop, reason)
    || exists caveat :: caveat in c.subject.caveats && CaveatFault(parse, caveat, now, hop, reason)
  }

  ghost predicate TimeFaultAt(parse: ParseDate, chain: seq<Credential>, now: int, i: nat, reason: Reason) {
    i < |chain| && TimeFault(parse, chain[i], now, i, reason)
  }

  /** The reasons are the faults of the first n credentials. */
  ghost predicate TimesReported(parse: ParseDate, chain: seq<Credential>, now: int, n: nat, reasons: seq<Reason>) {
    && (forall r :: r in reasons ==> exists i: nat :: i < n && TimeFaultAt(parse, chain, now, i, r))
    && (forall i: nat, r :: i < n && TimeFaultAt(parse, chain, now, i, r) ==> r in reasons)
  }

  method ExpiryReasons(parse: ParseDate, chain: seq<Credential>, now: int) returns (reasons: seq<Reason>)
    ensures |reasons| == 0 <==> forall c :: c in chain ==> Current(parse, c, now)
    ensures TimesReported(parse, chain, now, |chain|, reasons)
  {
    reasons := [];
    for i := 0 to |chain|
      invariant |reasons| == 0 <==> forall c :: c in chain[..i] ==> Current(parse, c, now)
      invariant TimesReported(parse, chain, now, i, reasons)
    {
      assert chain[..i + 1] == chain[..i] + [chain[i]];
      var more := HopExpiryReasons(parse, chain[i], now, i);
      assert forall r :: r in more <==> TimeFaultAt(parse, chain, now, i, r);
      reasons := reasons + more;
    }
    assert chain[..|chain|] == chain;
  }

  method HopExpiryReasons(parse: ParseDate, c: Credential, now: int, hop: nat) returns (reasons: seq<Reason>)
    ensures |reasons| == 0 <==> Current(parse, c, now)
    ensures forall r :: r in reasons <==> TimeFault(parse, c, now, hop, r)
  {
    reasons := [];
    if c.validUntil.Some? {
      var t := parse(c.validUntil.value);
      if t.None? {
        reasons := reasons + [UnparseableTime(hop)];
      } else if t.value < now {
        reasons := reasons + [Expired(hop)];
      }
    }
    assert forall r :: r in reasons <==> UntilFault(parse, c.validUntil, now, hop, r);
    if c.validFrom.Some? {
      var t := parse(c.validFrom.value);
      if t.None? {
        reasons := reasons + [UnparseableTime(hop)];
      } else if t.value > now {
        reasons := reasons + [NotYetValid(hop)];
      }
    }
    var more := CaveatExpiryReasons(parse, c.subject.caveats, now, hop);
    reasons := reasons + more;
  }

  method CaveatExpiryReasons(parse: ParseDate, caveats: seq<Caveat>, now: int, hop: nat) returns (reasons: seq<Reason>)
    ensures |reasons| == 0 <==> forall caveat :: caveat in caveats ==> CaveatCurrent(parse, caveat, now)
    ensures forall r :: r in reasons <==> exists caveat :: caveat in caveats && CaveatFault(parse, caveat, now, hop, r)
  {
    reasons := [];
    for k := 0 to |caveats|
      invariant |reasons| == 0 <==> forall caveat :: caveat in caveats[..k] ==> CaveatCurrent(parse, caveat, now)
      invariant forall r :: r in reasons <==>
        exists caveat :: caveat in caveats[..k] && CaveatFault(parse, caveat, now, hop, r)
    {
      var caveat := caveats[k];
      assert caveat in caveats[..k + 1] && forall x :: x in caveats[..k + 1] <==> x in caveats[..k] || x == caveat;
      if caveat.kind == VALID_UNTIL && caveat.date.Some? {
        var t := parse(caveat.date.value);
        if t.None? {
          reasons := reasons + [UnparseableTime(hop)];
        } else if t.value < now {
          reasons := reasons + [Expired(hop)];
        }
      }
    }
    assert caveats[..|caveats|] == caveats;
  }

  // ---- The chain ---------------------------------------------------------------------

  datatype Result = Result(ok: bool, reasons: seq<Reason>, responsibleParty: Option<Did>, leafInvoker: Option<Did>,
    invocationTarget: Option<string>, allowedAction: seq<string>, depth: nat)

  function RootReasons(root: Credential, ctx: Context): seq<Reason> {
    If(root.subject.parentCapability != root.subject.invocationTarget, RootParentMismatch)
    + If(ctx.resource.Some? && root.subject.invocationTarget != ctx.resource.value, UnexpectedResource)
    + If(ctx.resourceOwner.Some? && root.issuer != ctx.resourceOwner.value, UnexpectedOwner)
  }

  function LengthReasons(depth: nat, ctx: Context): seq<Reason> {
    if ctx.maxChainLength.None? then []
    else if ctx.maxChainLength.value < 1 then [LengthNotPositive]
    else If(depth > ctx.maxChainLength.value, TooLong)
  }

  predicate RootFits(root: Credential, ctx: Context) {
    && root.subject.parentCapability == root.subject.invocationTarget
    && (ctx.resource.Some? ==> root.subject.invocationTarget == ctx.resource.value)
    && (ctx.resourceOwner.Some? ==> root.issuer == ctx.resourceOwner.value)
  }

  /** What makes a chain acceptable at a moment. */
  ghost predicate Sound(parse: ParseDate, chain: seq<Credential>, ctx: Context) {
    && chain != []
    && (ctx.maxChainLength.Some? ==> 1 <= ctx.maxChainLength.value && |chain| <= ctx.maxChainLength.value)
    && RootFits(chain[0], ctx)
    && (forall i, j :: 0 <= i < j < |chain| && j == i + 1 ==> Narrows(parse, chain[i], chain[j]))
    && (forall c :: c in chain ==> Current(parse, c, ctx.now))
  }

  ghost predicate HopFaultAt(parse: ParseDate, chain: seq<Credential>, j: nat, reason: Reason) {
    0 < j < |chain| && HopFault(parse, chain[j - 1], chain[j], reason)
  }

  /** The reasons are the faults of the first n - 1 hops. */
  ghost predicate HopsReported(parse: ParseDate, chain: seq<Credential>, n: nat, reasons: seq<Reason>) {
    && (forall r :: r in reasons ==> exists j: nat :: j < n && HopFaultAt(parse, chain, j, r))
    && (forall j: nat, r :: j < n && HopFaultAt(parse, chain, j, r) ==> r in reasons)
  }

  lemma {:induction false} OneMoreHop(parse: ParseDate, chain: seq<Credential>, n: nat, reasons: seq<Reason>)
    requires 0 < n < |chain| && HopsReported(parse, chain, n, reasons)
    ensures HopsReported(parse, chain, n + 1, reasons + Attenuates(parse, chain[n - 1], chain[n]))
  {
    var more := Attenuates(parse, chain[n - 1], chain[n]);
    forall r
      ensures r in more <==> HopFaultAt(parse, chain, n, r)
    {
      HopReasonsMean(parse, chain[n - 1], chain[n], r);
    }
    forall r | r in reasons + more
      ensures exists j: nat :: j < n + 1 && HopFaultAt(parse, chain, j, r)
    {
      if r in more {
        assert HopFaultAt(parse, chain, n, r);
      }
    }
  }

  method HopReasons(parse: ParseDate, chain: seq<Credential>) returns (reasons: seq<Reason>)
    requires chain != []
    ensures |reasons| == 0 <==> forall i, j :: 0 <= i < j < |chain| && j == i + 1 ==> Narrows(parse, chain[i], chain[j])
    ensures HopsReported(parse, chain, |chain|, reasons)
  {
    reasons := [];
    for n := 1 to |chain|
      invariant |reasons| == 0 <==> forall i, j :: 0 <= i < j < n && j == i + 1 ==> Narrows(parse, chain[i], chain[j])
      invariant HopsReported(parse, chain, n, reasons)
    {
      NoReasonsMeansNarrows(parse, chain[n - 1], chain[n]);
      OneMoreHop(parse, chain, n, reasons);
      reasons := reasons + Attenuates(parse, chain[n - 1], chain[n]);
    }
  }

  /** What a reason says is wrong with a chain. */
  ghost predicate Fault(parse: ParseDate, chain: seq<Credential>, ctx: Context, reason: Reason) {
    match reason
    case EmptyChain => chain == []
    case LengthNotPositive => chain != [] && ctx.maxChainLength.Some? && ctx.maxChainLength.value < 1
    case TooLong => ctx.maxChainLength.Some? && 1 <= ctx.maxChainLength.value < |chain|
    case RootParentMismatch => chain != [] && chain[0].subject.parentCapability != chain[0].subject.invocationTarget
    case UnexpectedResource =>
      chain != [] && ctx.resource.Some? && ctx.resource.value != chain[0].subject.invocationTarget
    case UnexpectedOwner => chain != [] && ctx.resourceOwner.Some? && ctx.resourceOwner.value != chain[0].issuer
    case _ =>
      || (exists j: nat :: HopFaultAt(parse, chain, j, reason))
      || (exists i: nat :: TimeFaultAt(parse, chain, ctx.now, i, reason))
  }

  lemma {:induction false} RootReasonsMean(parse: ParseDate, chain: seq<Credential>, ctx: Context, reason: Reason)
    requires chain != []
    ensures reason in LengthReasons(|chain|, ctx) + RootReasons(chain[0], ctx) ==> Fault(parse, chain, ctx, reason)
    ensures Fault(parse, chain, ctx, reason) ==>
      || reason in LengthReasons(|chain|, ctx) + RootReasons(chain[0], ctx)
      || (exists j: nat :: HopFaultAt(parse, chain, j, reason))
      || (exists i: nat :: TimeFaultAt(parse, chain, ctx.now, i, reason))
  {
  }

  lemma {:induction false} HopFaultIsFault(
    parse: ParseDate, chain: seq<Credential>, ctx: Context, j: nat, reason: Reason)
    requires HopFaultAt(parse, chain, j, reason)
    ensures Fault(parse, chain, ctx, reason)
  {
  }

  lemma {:induction false} TimeFaultIsFault(
    parse: ParseDate, chain: seq<Credential>, ctx: Context, i: nat, reason: Reason)
    requires TimeFaultAt(parse, chain, ctx.now, i, reason)
    ensures Fault(parse, chain, ctx, reason)
  {
  }

  lemma {:induction false} ReasonsAreFaults(
    parse: ParseDate, chain: seq<Credential>, ctx: Context, hops: seq<Reason>, expiry: seq<Reason>, reason: Reason)
    requires chain != []
    requires HopsReported(parse, chain, |chain|, hops) && TimesReported(parse, chain, ctx.now, |chain|, expiry)
    ensures reason in LengthReasons(|chain|, ctx) + RootReasons(chain[0], ctx) + hops + expiry
       <==> Fault(parse, chain, ctx, reason)
  {
    RootReasonsMean(parse, chain, ctx, reason);
    if reason in hops {
      var j: nat :| j < |chain| && HopFaultAt(parse, chain, j, reason);
      HopFaultIsFault(parse, chain, ctx, j, reason);
    }
    if reason in expiry {
      var i: nat :| i < |chain| && TimeFaultAt(parse, chain, ctx.now, i, reason);
      TimeFaultIsFault(parse, chain, ctx, i, reason);
    }
  }

  lemma {:induction false} HopFaults(parse: ParseDate, parent: Credential, child: Credential)
    ensures Narrows(parse, parent, child) <==> forall reason :: !HopFault(parse, parent, child, reason)
  {
    NoReasonsMeansNarrows(parse, parent, child);
    var reasons := Attenuates(parse, parent, child);
    forall reason
      ensures reason in reasons <==> HopFault(parse, parent, child, reason)
    {
      HopReasonsMean(parse, parent, child, reason);
    }
    if reasons != [] {
      assert HopFault(parse, parent, child, reasons[0]);
    }
  }

  lemma {:induction false} TimeFaults(parse: ParseDate, c: Credential, now: int, hop: nat)
    ensures Current(parse, c, now) <==> forall reason :: !TimeFault(parse, c, now, hop, reason)
  {
    if !Current(parse, c, now) {
      var reason := if TimeFault(parse, c, now, hop, UnparseableTime(hop)) then UnparseableTime(hop)
                    else if TimeFault(parse, c, now, hop, Expired(hop)) then Expired(hop) else NotYetValid(hop);
      assert TimeFault(parse, c, now, hop, reason);
    }
  }

  lemma {:induction false} SoundHasNoFault(parse: ParseDate, chain: seq<Credential>, ctx: Context, reason: Reason)
    requires Sound(parse, chain, ctx)
    ensures !Fault(parse, chain, ctx, reason)
  {
    forall j: nat
      ensures !HopFaultAt(parse, chain, j, reason)
    {
      if 0 < j < |chain| {
        HopFaults(parse, chain[j - 1], chain[j]);
      }
    }
    forall i: nat
      ensures !TimeFaultAt(parse, chain, ctx.now, i, reason)
    {
      if i < |chain| {
        assert chain[i] in chain;
        TimeFaults(parse, chain[i], ctx.now, i);
      }
    }
  }

  lemma {:induction false} UnsoundHasFault(parse: ParseDate, chain: seq<Credential>, ctx: Context)
    returns (reason: Reason)
    requires !Sound(parse, chain, ctx)
    ensures Fault(parse, chain, ctx, reason)
  {
    if chain == [] {
      return EmptyChain;
    }
    if ctx.maxChainLength.Some? && !(1 <= ctx.maxChainLength.value && |chain| <= ctx.maxChainLength.value) {
      return if ctx.maxChainLength.value < 1 then LengthNotPositive else TooLong;
    }
    if !RootFits(chain[0], ctx) {
      return if Fault(parse, chain, ctx, RootParentMismatch) then RootParentMismatch
             else if Fault(parse, chain, ctx, UnexpectedResource) then UnexpectedResource else UnexpectedOwner;
    }
    if i, j :| 0 <= i < j < |chain| && j == i + 1 && !Narrows(parse, chain[i], chain[j]) {
      HopFaults(parse, chain[i], chain[j]);
      reason :| HopFault(parse, chain[i], chain[j], reason);
      HopFaultIsFault(parse, chain, ctx, j, reason);
    } else {
      var c :| c in chain && !Current(parse, c, ctx.now);
      var i :| 0 <= i < |chain| && chain[i] == c;
      TimeFaults(parse, c, ctx.now, i);
      reason :| TimeFault(parse, c, ctx.now, i, reason);
      TimeFaultIsFault(parse, chain, ctx, i, reason);
    }
  }

  /** A chain is sound exactly when it has no fault. */
  lemma {:induction false} SoundMeansFaultless(parse: ParseDate, chain: seq<Credential>, ctx: Context)
    ensures Sound(parse, chain, ctx) <==> forall reason :: !Fault(parse, chain, ctx, reason)
  {
    if Sound(parse, chain, ctx) {
      forall reason
        ensures !Fault(parse, chain, ctx, reason)
      {
        SoundHasNoFault(parse, chain, ctx, reason);
      }
    } else {
      var reason := UnsoundHasFault(parse, chain, ctx);
    }
  }

  method ValidateDelegationChain(parse: ParseDate, chain: seq<Credential>, ctx: Context) returns (result: Result)
    ensures result.ok <==> Sound(parse, chain, ctx)
    ensures result.ok <==> result.reasons == []
    ensures forall r :: r in result.reasons <==> Fault(parse, chain, ctx, r)
    ensures chain != [] ==>
      && result.responsibleParty == Some(chain[0].issuer)
      && result.leafInvoker == InvokerDid(chain[|chain| - 1])
      && result.invocationTarget == Some(chain[|chain| - 1].subject.invocationTarget)
      && result.allowedAction == chain[|chain| - 1].subject.allowedAction
    ensures result.depth == |chain|
  {
    if |chain| == 0 {
      return Result(false, [EmptyChain], None, None, None, [], 0);
    }
    var root, leaf := chain[0], chain[|chain| - 1];
    var reasons := LengthReasons(|chain|, ctx) + RootReasons(root, ctx);
    var hops := HopReasons(parse, chain);
    var expiry := ExpiryReasons(parse, chain, ctx.now);
    forall r
      ensures r in reasons + hops + expiry <==> Fault(parse, chain, ctx, r)
    {
      ReasonsAreFaults(parse, chain, ctx, hops, expiry, r);
    }
    reasons := reasons + hops + expiry;
    return Result(reasons == [], reasons, Some(root.issuer), InvokerDid(leaf), Some(leaf.subject.invocationTarget),
                  leaf.subject.allowedAction, |chain|);
  }

  // ---- What an accepted chain means --------------------------------------------------

  /** Narrowing hop by hop narrows end to end: from any ancestor to any descendant, actions are
      a subset, every caveat is still there at least as narrow, and the resource is the same. */
  lemma {:induction false} NarrowingComposes(parse: ParseDate, chain: seq<Credential>, ctx: Context, i: nat, k: nat)
    requires Sound(parse, chain, ctx) && i < k < |chain|
    ensures var (a, d) := (chain[i], chain[k]);
      && (forall action :: action in d.subject.allowedAction ==> action in a.subject.allowedAction)
      && (forall pc :: pc in a.subject.caveats ==> exists cc :: cc in d.subject.caveats && CaveatNarrows(parse, pc, cc))
      && (a.validUntil.Some? ==> d.validUntil.Some? && DateLte(parse, d.validUntil.value, a.validUntil.value))
      && d.subject.invocationTarget == a.subject.invocationTarget
  {
    assert Narrows(parse, chain[k - 1], chain[k]);
    if i < k - 1 {
      NarrowingComposes(parse, chain, ctx, i, k - 1);
      HopComposes(parse, chain[i], chain[k - 1], chain[k]);
    }
  }

  lemma {:induction false} HopComposes(parse: ParseDate, a: Credential, m: Credential, d: Credential)
    requires forall pc :: pc in a.subject.caveats ==> exists cc :: cc in m.subject.caveats && CaveatNarrows(parse, pc, cc)
    requires forall pc :: pc in m.subject.caveats ==> exists cc :: cc in d.subject.caveats && CaveatNarrows(parse, pc, cc)
    ensures forall pc :: pc in a.subject.caveats ==> exists cc :: cc in d.subject.caveats && CaveatNarrows(parse, pc, cc)
  {
    forall pc | pc in a.subject.caveats
      ensures exists cc :: cc in d.subject.caveats && CaveatNarrows(parse, pc, cc)
    {
      var mc :| mc in m.subject.caveats && CaveatNarrows(parse, pc, mc);
      var dc :| dc in d.subject.caveats && CaveatNarrows(parse, mc, dc);
      NarrowsTransitive(parse, pc, mc, dc);
    }
  }

  /** A caveat of an unknown kind is still there, as it was, at every descendant. */
  lemma {:induction false} UnknownCaveatsStay(
    parse: ParseDate, chain: seq<Credential>, ctx: Context, i: nat, k: nat, caveat: Caveat)
    requires Sound(parse, chain, ctx) && i <= k < |chain| && caveat in chain[i].subject.caveats
    requires caveat.kind != "ValidUntil" && caveat.kind != "MaxAmount"
    ensures caveat in chain[k].subject.caveats
  {
    if i < k {
      NarrowingComposes(parse, chain, ctx, i, k);
      var cc :| cc in chain[k].subject.caveats && CaveatNarrows(parse, caveat, cc);
      NarrowsExactly(parse, caveat, cc);
    }
  }

  /** Custody: each credential is issued by the invoker of the one above, or by its controller when
      it names no invoker, and is for that one's capability. */
  lemma {:induction false} CustodyIsUnbroken(parse: ParseDate, chain: seq<Credential>, ctx: Context, k: nat)
    requires Sound(parse, chain, ctx) && k + 1 < |chain|
    ensures var (above, below) := (chain[k].subject, chain[k + 1]);
      && (above.invoker.Some? ==> above.invoker == Some(below.issuer))
      && (above.invoker.None? ==> above.controller == Some(below.issuer))
      && below.subject.parentCapability == above.id
  {
    assert Narrows(parse, chain[k], chain[k + 1]);
  }

  /** Validity windows include their ends: a credential that is valid from and until one moment is
      current then, and only then. */
  lemma {:induction false} WindowIsInclusive(parse: ParseDate, c: Credential, text: string, moment: int, now: int)
    requires c.validFrom == Some(text) && c.validUntil == Some(text) && parse(text) == Some(moment)
    requires c.subject.caveats == []
    ensures Current(parse, c, now) <==> now == moment
  {
  }

  /** A deadline caveat that can be read is current exactly while it permits. */
  lemma {:induction false} CurrentIsPermitted(
    parse: ParseDate, caveat: Caveat, amount: real, currency: string, now: int)
    requires caveat.kind == VALID_UNTIL && caveat.date.Some?
    ensures CaveatCurrent(parse, caveat, now) <==> Permits(parse, caveat, amount, currency, now)
  {
  }

  /** Whatever the leaf's caveats let through, every ancestor's caveats let through, and the leaf
      may do nothing that an ancestor may not. */
  lemma {:induction false} LeafWithinEveryAncestor(
    parse: ParseDate, chain: seq<Credential>, ctx: Context, i: nat,
    action: string, amount: real, currency: string, time: int)
    requires Sound(parse, chain, ctx) && i < |chain|
    requires var leaf := chain[|chain| - 1].subject;
      action in leaf.allowedAction && forall c :: c in leaf.caveats ==> Permits(parse, c, amount, currency, time)
    ensures action in chain[i].subject.allowedAction
    ensures forall c :: c in chain[i].subject.caveats ==> Permits(parse, c, amount, currency, time)
  {
    var last := |chain| - 1;
    if i < last {
      NarrowingComposes(parse, chain, ctx, i, last);
      forall pc | pc in chain[i].subject.caveats
        ensures Permits(parse, pc, amount, currency, time)
      {
        var cc :| cc in chain[last].subject.caveats && CaveatNarrows(parse, pc, cc);
        NarrowerPermitsLess(parse, pc, cc, amount, currency, time);
      }
    }
  }
}
