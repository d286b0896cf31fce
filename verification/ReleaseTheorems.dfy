/**
 When each release decision and risk tier is given, without the tables of glass_ionomer/engine/enforcer.py: for single
 certifications, and for the conclusions of glass_ionomer/engine/synthesizer.py.
*/
module ReleaseTheorems {
  import opened Wrappers
  import opened Status
  import opened Enforcer
  import opened Synthesizer

  ghost predicate HasBlock(advisories: seq<Advisory>) {
    exists a :: a in advisories && a.severity.Block?
  }

  ghost predicate HasCaution(advisories: seq<Advisory>) {
    exists a :: a in advisories && a.severity.Caution?
  }

  /** A refuted claim, or a blocking advisory. */
  ghost predicate MustRefuse(c: Certification, advisories: seq<Advisory>) {
    c.status.Refuted? || HasBlock(advisories)
  }

  /** A contested claim, or a verified one that no definitive verifier backs. */
  predicate MustEscalate(c: Certification) {
    c.status.Contested? || (c.status.Verified? && !c.definitiveNonLlm)
  }

  /** A claim that is barely supported or not at all, or whose support is all a model's. */
  predicate MustClarify(c: Certification) {
    c.status.Supported? || c.status.Unverified? || c.status.Expired? || c.modelDerivedSupportOnly
  }

  ghost predicate MustNotify(c: Certification, advisories: seq<Advisory>) {
    c.status.Corroborated? || HasCaution(advisories)
  }

  /** The five decisions, each in terms of the certification and the advisories. */
  lemma DecisionExactly(c: Certification, advisories: seq<Advisory>, d: ReleaseDecision, t: nat)
    requires IsRelease(c, advisories, d, t)
    ensures d == if MustRefuse(c, advisories) then Refuse
                 else if MustEscalate(c) then Escalate
                 else if MustClarify(c) then RequireClarification
                 else if MustNotify(c, advisories) then AllowWithNotice
                 else Allow
  {
    FloorsBind(c, advisories, d, t);
    var f :| IsFloor(c, advisories, f) && f.decision == d;
  }

  lemma FloorsBind(c: Certification, advisories: seq<Advisory>, d: ReleaseDecision, t: nat)
    requires IsRelease(c, advisories, d, t)
    ensures Restrictiveness(StatusFloor(c).decision) <= Restrictiveness(d) && StatusFloor(c).tier <= t
    ensures Restrictiveness(ModelFloor(c).decision) <= Restrictiveness(d) && ModelFloor(c).tier <= t
    ensures forall a :: a in advisories ==>
              Restrictiveness(AdvisoryFloor(a.severity).decision) <= Restrictiveness(d) && AdvisoryFloor(a.severity).tier <= t
  {
    assert IsFloor(c, advisories, StatusFloor(c)) && IsFloor(c, advisories, ModelFloor(c));
    forall a | a in advisories
      ensures Restrictiveness(AdvisoryFloor(a.severity).decision) <= Restrictiveness(d) && AdvisoryFloor(a.severity).tier <= t
    {
      assert IsFloor(c, advisories, AdvisoryFloor(a.severity));
    }
  }

  /** The tier: 5 where refused, 4 for a verified claim without a verifier, 3 where held back otherwise, 1 with notice. */
  lemma TierExactly(c: Certification, advisories: seq<Advisory>, d: ReleaseDecision, t: nat)
    requires IsRelease(c, advisories, d, t)
    ensures t == if MustRefuse(c, advisories) then 5
                 else if c.status.Verified? && !c.definitiveNonLlm then 4
                 else if MustEscalate(c) || MustClarify(c) then 3
                 else if MustNotify(c, advisories) then 1
                 else 0
  {
    FloorsBind(c, advisories, d, t);
    var f :| IsFloor(c, advisories, f) && f.tier == t;
  }

  /** A refuted claim is refused at the highest tier, whatever else is said. */
  lemma RefutedIsRefused(advisories: seq<Advisory>, definitive: bool, modelOnly: bool, d: ReleaseDecision, t: nat)
    requires IsRelease(Certification(Refuted, definitive, modelOnly), advisories, d, t)
    ensures d.Refuse? && t == 5
  {
    DecisionExactly(Certification(Refuted, definitive, modelOnly), advisories, d, t);
    TierExactly(Certification(Refuted, definitive, modelOnly), advisories, d, t);
  }

  /** What a conclusion is certified for: never more than its weakest premise, and nothing where there is none. */
  lemma CertifiedExactly(c: Conclusion, ps: seq<Premise>, trustedDerivation: bool, now: int)
    ensures var cert := CertificationFor(c, ps, trustedDerivation, now);
            && (if ps == [] then cert.status.Unverified? else IsWeakest(c, ps, cert.status))
            && (cert.modelDerivedSupportOnly <==> exists p :: p in ps && p.certification.modelDerivedSupportOnly)
            && (cert.definitiveNonLlm
                <==> ps != [] && trustedDerivation && forall p :: p in ps ==> p.certification.definitiveNonLlm)
  {
    SynthesisIsWeakest(c, ps, now);
  }

  /** With no premise there is nothing to release: it is sent back for clarification, or refused on a blocking advisory. */
  lemma NothingToSynthesize(c: Conclusion, der: Derivation, now: int, d: ReleaseDecision, t: nat)
    requires IsRelease(CertificationFor(c, [], der.trusted, now), AdvisoriesFor(c, [], der), d, t)
    ensures if HasBlock(c.advisories) then d.Refuse? && t == 5 else d.RequireClarification? && t == 3
  {
    DecisionExactly(CertificationFor(c, [], der.trusted, now), c.advisories, d, t);
    TierExactly(CertificationFor(c, [], der.trusted, now), c.advisories, d, t);
  }

  /** A conclusion is refused exactly over a refuted premise or by a blocking advisory. */
  lemma RefusedExactly(c: Conclusion, ps: seq<Premise>, der: Derivation, now: int, d: ReleaseDecision, t: nat)
    requires IsRelease(CertificationFor(c, ps, der.trusted, now), AdvisoriesFor(c, ps, der), d, t)
    ensures d.Refuse? <==> SomePremise(ps, Refuted) || HasBlock(c.advisories)
  {
    var cert, advisories := CertificationFor(c, ps, der.trusted, now), AdvisoriesFor(c, ps, der);
    DecisionExactly(cert, advisories, d, t);
    SameBlocks(c, ps, der);
    if ps != [] {
      SynthesisIsWeakest(c, ps, now);
      RefutedExactly(c, ps, cert.status);
    }
  }

  lemma RefutedExactly(c: Conclusion, ps: seq<Premise>, s: EvidenceStatus)
    requires IsWeakest(c, ps, s)
    ensures s.Refuted? <==> SomePremise(ps, Refuted)
  {
    if p :| p in ps && p.certification.status == Refuted {
      assert Rank(s) <= Rank(p.certification.status);
    }
  }

  lemma SameBlocks(c: Conclusion, ps: seq<Premise>, der: Derivation)
    ensures HasBlock(AdvisoriesFor(c, ps, der)) <==> HasBlock(c.advisories)
    ensures HasCaution(AdvisoriesFor(c, ps, der)) <==> HasCaution(c.advisories) || (ps != [] && !der.trusted)
  {
    var advisories := AdvisoriesFor(c, ps, der);
    if ps != [] && !der.trusted {
      var last := advisories[|advisories| - 1];
      assert last in advisories && last.severity.Caution?;
      assert forall a :: a in advisories <==> a in c.advisories || a == last;
    }
  }

  /** The statuses below CONTESTED that do not refute. */
  ghost predicate SomeUnsettled(ps: seq<Premise>) {
    SomePremise(ps, Unverified) || SomePremise(ps, Expired)
  }

  /**
   Otherwise it is escalated exactly where a contested premise is the weakest, or all is verified for a mechanical
   conclusion but the derivation is not trusted or some premise has no definitive verifier.
  */
  lemma EscalatedExactly(c: Conclusion, ps: seq<Premise>, der: Derivation, now: int, d: ReleaseDecision, t: nat)
    requires IsRelease(CertificationFor(c, ps, der.trusted, now), AdvisoriesFor(c, ps, der), d, t)
    requires !SomePremise(ps, Refuted) && !HasBlock(c.advisories)
    ensures d.Escalate?
            <==> || (SomePremise(ps, Contested) && !SomeUnsettled(ps))
                 || (&& ps != [] && c.verifiabilityClass.Mechanical? && (forall p :: p in ps ==> p.certification.status.Verified?)
                     && !(der.trusted && forall p :: p in ps ==> p.certification.definitiveNonLlm))
  {
    var cert, advisories := CertificationFor(c, ps, der.trusted, now), AdvisoriesFor(c, ps, der);
    DecisionExactly(cert, advisories, d, t);
    SameBlocks(c, ps, der);
    if ps != [] {
      VerifiedExactly(c, ps, now);
      SynthesisIsWeakest(c, ps, now);
      ContestedExactly(c, ps, cert.status);
    }
  }

  lemma ContestedExactly(c: Conclusion, ps: seq<Premise>, s: EvidenceStatus)
    requires IsWeakest(c, ps, s) && !SomePremise(ps, Refuted)
    ensures s.Contested? <==> SomePremise(ps, Contested) && !SomeUnsettled(ps)
  {
    if p :| p in ps && p.certification.status == Contested {
      assert Rank(s) <= Rank(p.certification.status);
    }
    if p :| p in ps && (p.certification.status == Unverified || p.certification.status == Expired) {
      assert Rank(s) <= Rank(p.certification.status);
    }
  }

  /** Premises that are absent are passed over; those present keep their order and number. */
  lemma {:induction false} PresentKeepsOrder(ps: seq<Option<Premise>>, qs: seq<Option<Premise>>, p: Premise)
    ensures Present(ps + qs) == Present(ps) + Present(qs)
    ensures Present([Some(p)]) == [p] && Present([None]) == [] && Present([]) == []
  {
    assert [Some(p)][1..] == [] && [Option<Premise>.None][1..] == [];
    if ps == [] {
      assert ps + qs == qs;
    } else {
      PresentKeepsOrder(ps[1..], qs, p);
      assert (ps + qs)[1..] == ps[1..] + qs;
    }
  }
}
