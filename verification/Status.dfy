/**
 Evidence statuses, their two orders, expiry and composition (glass_ionomer/verify/status.py).

 Explanatory reason strings are not modelled; times are integers.
*/
module Status {
  import opened Wrappers

  datatype EvidenceStatus =
    | Verified | Corroborated | Supported | Contested | Unverified | Refuted | Expired

  datatype ExecutionState = OK | NoEvidence | Error | Timeout | BudgetExhausted | Skipped

  datatype Direction = Supports | Refutes | Neutral

  datatype VerifiabilityClass = Mechanical | Empirical | Interpretive

  datatype StatusDecision = StatusDecision(
    claimId: string,
    status: EvidenceStatus,
    executionState: ExecutionState,
    verifiabilityClass: VerifiabilityClass,
    direction: Direction,
    contested: bool,
    supportLineages: nat,
    hasDefinitivePass: bool,
    decidedAt: int,
    expiresAt: Option<int>,
    modelDerivedSupportOnly: bool,
    provenanceVerifiedSupport: bool)

  /** The source's ladder: EXPIRED and UNVERIFIED share a rung. */
  function Ladder(s: EvidenceStatus): nat {
    match s
    case Verified => 5
    case Corroborated => 4
    case Supported => 3
    case Contested => 2
    case Unverified => 1
    case Expired => 1
    case Refuted => 0
  }

  /** The strict chain of seven statuses along which composition turns out to be a minimum. */
  function Rank(s: EvidenceStatus): nat {
    match s
    case Verified => 6
    case Corroborated => 5
    case Supported => 4
    case Contested => 3
    case Unverified => 2
    case Expired => 1
    case Refuted => 0
  }

  /** The ladder is the chain with its EXPIRED and UNVERIFIED on one rung, and the chain tells all statuses apart. */
  lemma LadderTies(a: EvidenceStatus, b: EvidenceStatus)
    ensures Ladder(a) <= Ladder(b)
            <==> Rank(a) <= Rank(b) || (a == Unverified && b == Expired)
    ensures Rank(a) == Rank(b) <==> a == b
  {
  }

  predicate IsPositive(s: EvidenceStatus) {
    s.Verified? || s.Corroborated? || s.Supported?
  }

  function Ceiling(c: VerifiabilityClass): EvidenceStatus {
    match c
    case Mechanical => Verified
    case Empirical => Corroborated
    case Interpretive => Supported
  }

  predicate IsExpired(d: StatusDecision, now: int) {
    d.expiresAt.Some? && now >= d.expiresAt.value && IsPositive(d.status)
  }

  function Refresh(d: StatusDecision, now: int): StatusDecision {
    if IsExpired(d, now) then d.(status := Expired, direction := Neutral) else d
  }

  function RefreshAll(ds: seq<StatusDecision>, now: int): (r: seq<StatusDecision>)
    ensures |r| == |ds| && forall i :: 0 <= i < |ds| ==> r[i] == Refresh(ds[i], now)
  {
    seq(|ds|, i requires 0 <= i < |ds| => Refresh(ds[i], now))
  }

  /** Python's `min` by ladder: the first decision on the lowest rung. */
  function Weakest(best: StatusDecision, rest: seq<StatusDecision>): (w: StatusDecision)
    ensures w == best || w in rest
    ensures Ladder(w.status) <= Ladder(best.status)
    ensures forall p :: p in rest ==> Ladder(w.status) <= Ladder(p.status)
    ensures Ladder(w.status) == Ladder(best.status) ==> w == best
    decreases rest
  {
    if rest == [] then best
    else
      Weakest(if Ladder(rest[0].status) < Ladder(best.status) then rest[0] else best, rest[1..])
  }

  function EarlierOf(a: Option<int>, b: Option<int>): Option<int> {
    if a.None? then b else if b.None? || a.value <= b.value then a else b
  }

  function EarliestDeadline(ds: seq<StatusDecision>): (t: Option<int>)
    ensures forall d :: d in ds && d.expiresAt.Some? ==> t.Some? && t.value <= d.expiresAt.value
    ensures t.Some? ==> exists d :: d in ds && d.expiresAt == t
  {
    if ds == [] then None else EarlierOf(ds[0].expiresAt, EarliestDeadline(ds[1..]))
  }

  predicate AnyWith(ds: seq<StatusDecision>, s: EvidenceStatus) {
    exists d :: d in ds && d.status == s
  }

  predicate AnyContested(ds: seq<StatusDecision>) {
    exists d :: d in ds && d.contested
  }

  predicate AnyModelDerived(ds: seq<StatusDecision>) {
    exists d :: d in ds && d.modelDerivedSupportOnly
  }

  /** The branches of composition over a conclusion and premises that have been refreshed already. */
  function ComposedStatus(c: StatusDecision, ps: seq<StatusDecision>): EvidenceStatus {
    if AnyWith(ps, Refuted) then Refuted
    else if AnyWith(ps, Expired) then if c.status.Refuted? then Refuted else Expired
    else
      var weakest := Weakest(c, ps);
      if Ladder(weakest.status) < Ladder(c.status) then weakest.status else c.status
  }

  function ComposedDirection(c: StatusDecision, ps: seq<StatusDecision>): Direction {
    if AnyWith(ps, Refuted) then Refutes
    else if AnyWith(ps, Expired) && !c.status.Refuted? then Neutral
    else c.direction
  }

  function ComposeRefreshed(c: StatusDecision, ps: seq<StatusDecision>, now: int): StatusDecision {
    c.(
      status := ComposedStatus(c, ps),
      direction := ComposedDirection(c, ps),
      contested := c.contested || AnyContested(ps),
      modelDerivedSupportOnly := c.modelDerivedSupportOnly || AnyModelDerived(ps),
      decidedAt := now,
      expiresAt := EarliestDeadline([c] + ps))
  }

  function Compose(conclusion: StatusDecision, premises: seq<StatusDecision>, now: int): StatusDecision {
    if premises == [] then Refresh(conclusion, now)
    else ComposeRefreshed(Refresh(conclusion, now), RefreshAll(premises, now), now)
  }

  /** `t` is the earliest deadline carried by `self` or by one of `ps`. */
  ghost predicate IsEarliest(t: Option<int>, self: StatusDecision, ps: seq<StatusDecision>) {
    && (forall d :: (d == self || d in ps) && d.expiresAt.Some? ==> t.Some? && t.value <= d.expiresAt.value)
    && (t.Some? ==> exists d :: (d == self || d in ps) && d.expiresAt == t)
  }

  lemma RefreshedMembers(ps: seq<StatusDecision>, now: int)
    ensures forall p :: p in ps ==> Refresh(p, now) in RefreshAll(ps, now)
    ensures forall r :: r in RefreshAll(ps, now) ==> exists p :: p in ps && r == Refresh(p, now)
  {
    var rs := RefreshAll(ps, now);
    forall p | p in ps
      ensures Refresh(p, now) in rs
    {
      var i :| 0 <= i < |ps| && ps[i] == p;
      assert rs[i] == Refresh(p, now);
    }
    forall r | r in rs
      ensures exists p :: p in ps && r == Refresh(p, now)
    {
      var i :| 0 <= i < |rs| && rs[i] == r;
      assert ps[i] in ps && r == Refresh(ps[i], now);
    }
  }

  lemma RefreshedMinimum(c: StatusDecision, ps: seq<StatusDecision>)
    ensures var s := ComposedStatus(c, ps);
            && Rank(s) <= Rank(c.status)
            && (forall p :: p in ps ==> Rank(s) <= Rank(p.status))
            && (s == c.status || exists p :: p in ps && s == p.status)
  {
    var w := Weakest(c, ps);
    forall p | p in ps
      ensures Rank(ComposedStatus(c, ps)) <= Rank(p.status)
    {
      assert Ladder(w.status) <= Ladder(p.status);
    }
  }

  /** Composition takes the exact minimum on the seven-status chain, although the ladder ties two of them. */
  lemma ComposeIsChainMinimum(c: StatusDecision, ps: seq<StatusDecision>, now: int)
    ensures var s := Compose(c, ps, now).status;
            && Rank(s) <= Rank(Refresh(c, now).status)
            && (forall p :: p in ps ==> Rank(s) <= Rank(Refresh(p, now).status))
            && (s == Refresh(c, now).status || exists p :: p in ps && s == Refresh(p, now).status)
  {
    RefreshedMembers(ps, now);
    RefreshedMinimum(Refresh(c, now), RefreshAll(ps, now));
  }

  lemma EarliestOfRefreshed(t: Option<int>, c: StatusDecision, ps: seq<StatusDecision>, now: int)
    requires IsEarliest(t, Refresh(c, now), RefreshAll(ps, now))
    ensures IsEarliest(t, c, ps)
  {
    RefreshedMembers(ps, now);
    forall d | (d == c || d in ps) && d.expiresAt.Some?
      ensures t.Some? && t.value <= d.expiresAt.value
    {
      assert Refresh(d, now).expiresAt == d.expiresAt;
    }
    if t.Some? {
      var r :| (r == Refresh(c, now) || r in RefreshAll(ps, now)) && r.expiresAt == t;
      var d :| (d == c || d in ps) && r == Refresh(d, now);
      assert d.expiresAt == t;
    }
  }

  /** The deadline of a composition is the earliest over the conclusion and its premises. */
  lemma ComposeInheritsEarliestDeadline(c: StatusDecision, ps: seq<StatusDecision>, now: int)
    ensures IsEarliest(Compose(c, ps, now).expiresAt, c, ps)
  {
    if ps != [] {
      EarliestOfRefreshed(Compose(c, ps, now).expiresAt, c, ps, now);
    }
  }

  /** Both warning flags are inherited from the conclusion or from any premise, and from nowhere else. */
  lemma ComposeJoinsFlags(c: StatusDecision, ps: seq<StatusDecision>, now: int)
    ensures Compose(c, ps, now).contested == (c.contested || AnyContested(ps))
    ensures Compose(c, ps, now).modelDerivedSupportOnly == (c.modelDerivedSupportOnly || AnyModelDerived(ps))
  {
  }

  /** Which way a composed decision points. */
  lemma ComposeDirection(c: StatusDecision, ps: seq<StatusDecision>, now: int)
    ensures Compose(c, ps, now).direction ==
            if exists p :: p in ps && Refresh(p, now).status.Refuted? then Refutes
            else if (exists p :: p in ps && Refresh(p, now).status.Expired?)
                    && !Refresh(c, now).status.Refuted? then Neutral
            else Refresh(c, now).direction
  {
    RefreshedMembers(ps, now);
  }

  /** With a lapsed premise and none refuted the conclusion lapses, unless it is refuted on its own account. */
  lemma LapsedPremiseExpires(c: StatusDecision, ps: seq<StatusDecision>, now: int)
    requires exists p :: p in ps && Refresh(p, now).status.Expired?
    requires forall p :: p in ps ==> !Refresh(p, now).status.Refuted?
    ensures Compose(c, ps, now).status.Expired? <==> !Refresh(c, now).status.Refuted?
  {
    RefreshedMembers(ps, now);
  }

  /** A refuted conclusion over one expired premise stays REFUTED. */
  lemma RefutedOutlastsLapse(c: StatusDecision, p: StatusDecision, now: int)
    requires c.status.Refuted? && p.status.Expired?
    ensures Compose(c, [p], now).status.Refuted?
  {
    assert p in [p];
    LapsedPremiseExpires(c, [p], now);
    ComposeIsChainMinimum(c, [p], now);
  }

  /** The text a status is recorded under. */
  function StatusText(s: EvidenceStatus): string {
    match s
    case Verified => "verified"
    case Corroborated => "corroborated"
    case Supported => "supported"
    case Contested => "contested"
    case Unverified => "unverified"
    case Refuted => "refuted"
    case Expired => "expired"
  }
}
