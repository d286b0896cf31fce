/** Release decisions: `enforce` of glass_ionomer/engine/enforcer.py, its receipts apart. */
module Enforcer {
  import opened Numbers
  import opened Status

  datatype ReleaseDecision = Allow | AllowWithNotice | RequireClarification | Escalate | Refuse

  datatype Severity = Info | Caution | Block

  datatype Advisory = Advisory(name: string, severity: Severity)

  datatype Certification = Certification(status: EvidenceStatus, definitiveNonLlm: bool, modelDerivedSupportOnly: bool)

  /** A decision that a release may not relax, with the least risk tier that goes with it. */
  datatype Floor = Floor(decision: ReleaseDecision, tier: nat)

  function Restrictiveness(d: ReleaseDecision): nat {
    match d
    case Allow => 0
    case AllowWithNotice => 1
    case RequireClarification => 2
    case Escalate => 3
    case Refuse => 4
  }

  /** The source's table from certified status to base decision and risk tier. */
  function StatusRelease(s: EvidenceStatus): Floor {
    match s
    case Verified => Floor(Allow, 0)
    case Corroborated => Floor(AllowWithNotice, 1)
    case Supported => Floor(RequireClarification, 3)
    case Contested => Floor(Escalate, 3)
    case Unverified => Floor(RequireClarification, 3)
    case Expired => Floor(RequireClarification, 3)
    case Refuted => Floor(Refuse, 5)
  }

  /** The text a decision is recorded under. */
  function DecisionText(d: ReleaseDecision): string {
    match d
    case Allow => "allow"
    case AllowWithNotice => "allow_with_notice"
    case RequireClarification => "require_clarification"
    case Escalate => "escalate"
    case Refuse => "refuse"
  }

  function SeverityText(s: Severity): string {
    match s
    case Info => "info"
    case Caution => "caution"
    case Block => "block"
  }

  function MoreRestrictive(current: ReleaseDecision, floor: ReleaseDecision): ReleaseDecision {
    if Restrictiveness(floor) > Restrictiveness(current) then floor else current
  }

  /** An advisory's floor; INFO imposes none, which is what Allow amounts to. */
  function AdvisoryFloor(s: Severity): Floor {
    match s
    case Block => Floor(Refuse, 5)
    case Caution => Floor(AllowWithNotice, 1)
    case Info => Floor(Allow, 0)
  }

  /** The floor set by the status: a full release needs a definitive non-LLM verifier. */
  function StatusFloor(c: Certification): Floor {
    if StatusRelease(c.status).decision.Allow? && !c.definitiveNonLlm then Floor(Escalate, 4) else StatusRelease(c.status)
  }

  /** The floor set where every stance behind the support is model-derived. */
  function ModelFloor(c: Certification): Floor {
    if c.modelDerivedSupportOnly then Floor(RequireClarification, 3) else Floor(Allow, 0)
  }

  /** One of the floors that bear on a release. */
  ghost predicate IsFloor(c: Certification, advisories: seq<Advisory>, f: Floor) {
    f == StatusFloor(c) || f == ModelFloor(c) || exists a :: a in advisories && f == AdvisoryFloor(a.severity)
  }

  /** Decision and tier are, each on its own ladder, the maximum over the floors. */
  ghost predicate IsRelease(c: Certification, advisories: seq<Advisory>, decision: ReleaseDecision, tier: nat) {
    && (forall f :: IsFloor(c, advisories, f) ==> Restrictiveness(f.decision) <= Restrictiveness(decision) && f.tier <= tier)
    && (exists f :: IsFloor(c, advisories, f) && f.decision == decision)
    && (exists f :: IsFloor(c, advisories, f) && f.tier == tier)
  }

  /** `enforce`: starts from the status and only ever moves up. */
  method Enforce(c: Certification, advisories: seq<Advisory>) returns (decision: ReleaseDecision, tier: nat)
    ensures IsRelease(c, advisories, decision, tier)
  {
    var base := StatusRelease(c.status);
    decision, tier := base.decision, base.tier;
    if decision.Allow? && !c.definitiveNonLlm {
      decision, tier := Escalate, 4;
    }
    if c.modelDerivedSupportOnly && Restrictiveness(decision) < Restrictiveness(RequireClarification) {
      decision, tier := RequireClarification, Max(tier, 3);
    }
    for i := 0 to |advisories|
      invariant IsRelease(c, advisories[..i], decision, tier)
    {
      var Floor(floor, atLeast) := AdvisoryFloor(advisories[i].severity);
      assert advisories[..i + 1] == advisories[..i] + [advisories[i]];
      OneMoreAdvisory(c, advisories[..i], advisories[i], decision, tier);
      decision := MoreRestrictive(decision, floor);
      tier := Max(tier, atLeast);
    }
    assert advisories[..|advisories|] == advisories;
  }

  lemma OneMoreAdvisory(c: Certification, advisories: seq<Advisory>, a: Advisory, decision: ReleaseDecision, tier: nat)
    requires IsRelease(c, advisories, decision, tier)
    ensures IsRelease(c, advisories + [a], MoreRestrictive(decision, AdvisoryFloor(a.severity).decision),
                      Max(tier, AdvisoryFloor(a.severity).tier))
  {
    var more := advisories + [a];
    forall f
      ensures IsFloor(c, more, f) <==> IsFloor(c, advisories, f) || f == AdvisoryFloor(a.severity)
    {
      assert a in more;
    }
  }

  /** The release depends on which floors there are, not on their order or number. */
  lemma ReleaseIsUnique(c: Certification, advisories: seq<Advisory>, advisories': seq<Advisory>,
                        d: ReleaseDecision, t: nat, d': ReleaseDecision, t': nat)
    requires forall a :: a in advisories <==> a in advisories'
    requires IsRelease(c, advisories, d, t) && IsRelease(c, advisories', d', t')
    ensures d == d' && t == t'
  {
    forall f
      ensures IsFloor(c, advisories, f) <==> IsFloor(c, advisories', f)
    {
    }
    var f :| IsFloor(c, advisories, f) && f.decision == d;
    var f' :| IsFloor(c, advisories', f') && f'.decision == d';
    assert Restrictiveness(d) == Restrictiveness(d');
  }

  lemma TierIsSmall(c: Certification, advisories: seq<Advisory>, d: ReleaseDecision, t: nat)
    requires IsRelease(c, advisories, d, t)
    ensures t <= 5
  {
    var f :| IsFloor(c, advisories, f) && f.tier == t;
  }

  /** More advisories never relax a release. */
  lemma AdvisoriesNeverRelax(c: Certification, advisories: seq<Advisory>, more: seq<Advisory>,
                             d: ReleaseDecision, t: nat, d': ReleaseDecision, t': nat)
    requires forall a :: a in advisories ==> a in more
    requires IsRelease(c, advisories, d, t) && IsRelease(c, more, d', t')
    ensures Restrictiveness(d) <= Restrictiveness(d') && t <= t'
  {
    var f :| IsFloor(c, advisories, f) && f.decision == d;
    assert IsFloor(c, more, f);
    var g :| IsFloor(c, advisories, g) && g.tier == t;
    assert IsFloor(c, more, g);
  }

  /** A full release takes a definitively backed VERIFIED, no model-only support, and nothing worse than INFO. */
  lemma AllowedExactly(c: Certification, advisories: seq<Advisory>, d: ReleaseDecision, t: nat)
    requires IsRelease(c, advisories, d, t)
    ensures d.Allow? <==> c.status.Verified? && c.definitiveNonLlm && !c.modelDerivedSupportOnly
                          && forall a :: a in advisories ==> a.severity.Info?
  {
    assert IsFloor(c, advisories, StatusFloor(c)) && IsFloor(c, advisories, ModelFloor(c));
    forall a | a in advisories
      ensures IsFloor(c, advisories, AdvisoryFloor(a.severity))
    {
    }
  }
}
