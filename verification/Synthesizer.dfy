/** Composing certified premises into a conclusion: glass_ionomer/engine/synthesizer.py. */
module Synthesizer {
  import opened Wrappers
  import opened Status
  import opened Enforcer
  import opened CanonicalValues
  import opened GraphAnchor
  import opened Receipts

  /** A premise with its real certification. */
  datatype Premise = Premise(claimId: string, verifiabilityClass: VerifiabilityClass, certification: Certification, recordHash: string)

  datatype Conclusion = Conclusion(
    claimId: string,
    text: string,
    verifiabilityClass: VerifiabilityClass,
    verificationPlan: string,
    advisories: seq<Advisory>)

  /** A conclusion as handed back. */
  datatype ConclusionResult = ConclusionResult(
    claimId: string,
    status: EvidenceStatus,
    decision: ReleaseDecision,
    tier: nat,
    supportGraph: seq<SupportNode>,
    graphHash: string,
    receipt: Receipt)

  /** What the caller of a synthesis says about its derivation; whether a proof is trusted is one boolean. */
  datatype Derivation = Derivation(trusted: bool, proofGiven: bool, checked: bool)

  function PremiseDecision(p: Premise, now: int): StatusDecision {
    var s := p.certification.status;
    StatusDecision(
      p.claimId, s, OK, p.verifiabilityClass,
      if IsPositive(s) then Supports else if s.Refuted? then Refutes else Neutral,
      s.Contested?, 0, p.certification.definitiveNonLlm, now, None, p.certification.modelDerivedSupportOnly, false)
  }

  function PremiseDecisions(ps: seq<Premise>, now: int): (ds: seq<StatusDecision>)
    ensures |ds| == |ps| && forall i :: 0 <= i < |ps| ==> ds[i] == PremiseDecision(ps[i], now)
  {
    seq(|ps|, i requires 0 <= i < |ps| => PremiseDecision(ps[i], now))
  }

  /** The conclusion starts at its own ceiling. */
  function Seed(c: Conclusion, now: int): StatusDecision {
    StatusDecision(c.claimId, Ceiling(c.verifiabilityClass), OK, c.verifiabilityClass, Supports,
                   false, 0, true, now, None, false, false)
  }

  function Synthesized(c: Conclusion, ps: seq<Premise>, now: int): StatusDecision {
    Compose(Seed(c, now), PremiseDecisions(ps, now), now)
  }

  predicate AllDefinitive(ps: seq<Premise>) {
    forall p :: p in ps ==> p.certification.definitiveNonLlm
  }

  /** The certification that is put to the enforcer. */
  function CertificationFor(c: Conclusion, ps: seq<Premise>, trustedDerivation: bool, now: int): Certification {
    if ps == [] then Certification(Unverified, false, false)
    else
      var d := Synthesized(c, ps, now);
      Certification(d.status, trustedDerivation && AllDefinitive(ps), d.modelDerivedSupportOnly)
  }

  /** An untrusted derivation costs one caution, under a name that records why. */
  function AdvisoriesFor(c: Conclusion, ps: seq<Premise>, der: Derivation): seq<Advisory> {
    if ps == [] || der.trusted then c.advisories
    else
      c.advisories + [Advisory(
        if der.proofGiven then "derivation_proof_invalid"
        else if der.checked then "derivation_proof_required"
        else "derivation_binding_unchecked", Caution)]
  }

  function Present(ps: seq<Option<Premise>>): (r: seq<Premise>)
    ensures forall p :: p in r <==> Some(p) in ps
  {
    if ps == [] then []
    else if ps[0].None? then Present(ps[1..])
    else [ps[0].value] + Present(ps[1..])
  }

  /** `s` is the minimum, on the chain, of the conclusion's ceiling and its premises' statuses. */
  ghost predicate IsWeakest(c: Conclusion, ps: seq<Premise>, s: EvidenceStatus) {
    && Rank(s) <= Rank(Ceiling(c.verifiabilityClass))
    && (forall p :: p in ps ==> Rank(s) <= Rank(p.certification.status))
    && (s == Ceiling(c.verifiabilityClass) || exists p :: p in ps && s == p.certification.status)
  }

  /** All that a full release demands of the premises and of the derivation. */
  ghost predicate Settled(c: Conclusion, ps: seq<Premise>, trustedDerivation: bool) {
    && ps != [] && trustedDerivation && c.verifiabilityClass.Mechanical?
    && (forall p :: p in ps ==> p.certification.status.Verified? && p.certification.definitiveNonLlm
                                && !p.certification.modelDerivedSupportOnly)
    && (forall a :: a in c.advisories ==> a.severity.Info?)
  }

  function NodesOf(ps: seq<Premise>): (nodes: seq<SupportNode>)
    ensures |nodes| == |ps|
    ensures forall i :: 0 <= i < |ps| ==>
              && nodes[i].claimId == ps[i].claimId && nodes[i].status == ps[i].certification.status
              && nodes[i].definitiveNonLlm == ps[i].certification.definitiveNonLlm && nodes[i].recordHash == ps[i].recordHash
  {
    seq(|ps|, i requires 0 <= i < |ps| =>
      SupportNode(ps[i].claimId, ps[i].certification.status, ps[i].certification.definitiveNonLlm, ps[i].recordHash))
  }

  function Notices(advisories: seq<Advisory>): (ns: seq<Notice>)
    ensures |ns| == |advisories|
    ensures forall i :: 0 <= i < |ns| ==> ns[i] == Notice(advisories[i].name, SeverityText(advisories[i].severity))
  {
    seq(|advisories|, i requires 0 <= i < |advisories| => Notice(advisories[i].name, SeverityText(advisories[i].severity)))
  }

  /** What the receipt of a synthesis records. */
  function ReceiptContent(d: Digests, disclaimer: string, c: Conclusion, ps: seq<Premise>, der: Derivation,
                          cert: Certification, graphHash: string, decision: ReleaseDecision, tier: nat): Content
  {
    Content(
      ENGINE_VERSION, c.claimId, d.hash(c.text),
      if ps == [] then c.verificationPlan else "synthesis",
      StatusText(cert.status),
      if ps == [] then "synthesis(no premises)" else "synthesis(conjunction) over " + Decimal(|ps|) + " premises",
      cert.definitiveNonLlm, graphHash, Notices(AdvisoriesFor(c, ps, der)), DecisionText(decision), tier, disclaimer)
  }

  /** What the receipt of a synthesis says, field by field. */
  lemma ContentRecords(d: Digests, disclaimer: string, c: Conclusion, ps: seq<Premise>, der: Derivation, now: int,
                       graphHash: string, decision: ReleaseDecision, tier: nat)
    ensures var cert := CertificationFor(c, ps, der.trusted, now);
            var r := ReceiptContent(d, disclaimer, c, ps, der, cert, graphHash, decision, tier);
            && r.engineVersion == "glass_ionomer.engine.v2" && r.claimId == c.claimId && r.rawClaimHash == d.hash(c.text)
            && r.verificationPlan == (if ps == [] then c.verificationPlan else "synthesis")
            && r.certStatus == StatusText(cert.status) && r.certRecordHash == graphHash && r.disclaimer == disclaimer
            && r.releaseDecision == DecisionText(decision) && r.riskTier == tier
            && (r.certDefinitive <==> ps != [] && der.trusted && forall p :: p in ps ==> p.certification.definitiveNonLlm)
    ensures ReceiptContent(d, disclaimer, c, ps, der, CertificationFor(c, ps, der.trusted, now), graphHash, decision, tier).certSource
            == if ps == [] then "synthesis(no premises)" else "synthesis(conjunction) over " + Decimal(|ps|) + " premises"
  {
  }

  /** The advisories it lists: the conclusion's own, and a caution after them for an untrusted derivation. */
  lemma AdvisoriesRecorded(c: Conclusion, ps: seq<Premise>, der: Derivation)
    ensures ps == [] || der.trusted ==> Notices(AdvisoriesFor(c, ps, der)) == Notices(c.advisories)
    ensures ps != [] && !der.trusted ==>
              var ns := Notices(AdvisoriesFor(c, ps, der));
              && |ns| == |c.advisories| + 1 && ns[..|c.advisories|] == Notices(c.advisories)
              && ns[|c.advisories|].severity == "caution"
  {
    if ps != [] && !der.trusted {
      assert Notices(AdvisoriesFor(c, ps, der))[..|c.advisories|] == Notices(c.advisories);
    }
  }

  /** The caution names the proof that failed, or the want of one. */
  lemma CautionIsNamed(c: Conclusion, ps: seq<Premise>, der: Derivation)
    requires ps != [] && !der.trusted
    ensures var advisories := AdvisoriesFor(c, ps, der);
            && |advisories| == |c.advisories| + 1
            && (advisories[|c.advisories|].name == "derivation_proof_invalid" <==> der.proofGiven)
            && (advisories[|c.advisories|].name == "derivation_proof_required" <==> !der.proofGiven && der.checked)
            && (advisories[|c.advisories|].name == "derivation_binding_unchecked" <==> !der.proofGiven && !der.checked)
  {
    assert |"derivation_proof_invalid"| != |"derivation_proof_required"|;
    assert |"derivation_binding_unchecked"| > |"derivation_proof_required"|;
  }

  /** `verify_conclusion`: re-derives the graph anchor and checks the receipt that carries it. */
  function VerifyConclusion(d: Digests, x: ConclusionResult, key: Option<string>): Result<bool> {
    match GraphHash(d.hash, x.claimId, x.supportGraph)
    case Raised => Raised
    case Ok(h) =>
      if h != x.graphHash then Ok(false)
      else if x.receipt.content.claimId != x.claimId then Ok(false)
      else if x.receipt.content.certRecordHash != x.graphHash then Ok(false)
      else Verify(d, x.receipt, key, false)
  }

  /** A conclusion that carries its own anchor, under a receipt issued for it, passes with the issuer's key and without. */
  lemma AnchoredPasses(d: Digests, x: ConclusionResult, content: Content, key: Option<string>)
    requires d.Valid() && GraphHash(d.hash, x.claimId, x.supportGraph) == Ok(x.graphHash)
    requires content.engineVersion == ENGINE_VERSION && content.claimId == x.claimId && content.certRecordHash == x.graphHash
    requires Issue(d, content, key) == Ok(x.receipt)
    ensures VerifyConclusion(d, x, key) == VerifyConclusion(d, x, None) == Ok(true)
  {
    IssuedPassesExactly(d, content, key, key, false);
    IssuedPassesExactly(d, content, key, None, false);
  }

  /** Synthesis raises on an empty key, and where premises or advisories are too many for the serialiser. */
  predicate Raises(c: Conclusion, ps: seq<Premise>, der: Derivation, key: Option<string>) {
    key == Some("") || 3 + 5 * |ps| > MAX_NODES || 13 + 3 * |AdvisoriesFor(c, ps, der)| > MAX_NODES
  }

  lemma IssuedExactly(d: Digests, content: Content, key: Option<string>)
    requires d.Valid() && content.engineVersion == ENGINE_VERSION && 0 <= content.riskTier <= 5
    ensures Issue(d, content, key).Ok? <==> key != Some("") && 13 + 3 * |content.advisories| <= MAX_NODES
  {
    ContentHashedExactly(d, content);
  }

  /** A conclusion is exactly as strong as the weakest of its ceiling and its premises. */
  lemma SynthesisIsWeakest(c: Conclusion, ps: seq<Premise>, now: int)
    ensures IsWeakest(c, ps, Synthesized(c, ps, now).status)
    ensures Synthesized(c, ps, now).modelDerivedSupportOnly
            <==> exists p :: p in ps && p.certification.modelDerivedSupportOnly
  {
    var ds := PremiseDecisions(ps, now);
    ComposeIsChainMinimum(Seed(c, now), ds, now);
    ComposeJoinsFlags(Seed(c, now), ds, now);
    forall p | p in ps
      ensures PremiseDecision(p, now) in ds && Refresh(PremiseDecision(p, now), now).status == p.certification.status
    {
    }
  }

  ghost predicate SomePremise(ps: seq<Premise>, s: EvidenceStatus) {
    exists p :: p in ps && p.certification.status == s
  }

  /** A composed conclusion is contested where a premise is. */
  lemma SynthesizedContests(c: Conclusion, ps: seq<Premise>, now: int)
    ensures Synthesized(c, ps, now).contested <==> SomePremise(ps, Contested)
  {
    PremisesShow(ps, now);
    ComposeJoinsFlags(Seed(c, now), PremiseDecisions(ps, now), now);
  }

  /** It points against its claim over a refuted premise, nowhere over an expired one, and for it otherwise. */
  lemma SynthesizedPoints(c: Conclusion, ps: seq<Premise>, now: int)
    ensures Synthesized(c, ps, now).direction
            == if SomePremise(ps, Refuted) then Refutes else if SomePremise(ps, Expired) then Neutral else Supports
  {
    var d := Seed(c, now);
    PremisesShow(ps, now);
    assert Refresh(d, now) == d && !d.status.Refuted? && d.direction.Supports?;
    ComposeDirection(d, PremiseDecisions(ps, now), now);
  }

  /** The rest of its record is the conclusion's own. */
  lemma SynthesizedRecord(c: Conclusion, ps: seq<Premise>, now: int)
    ensures var d := Synthesized(c, ps, now);
            && d.claimId == c.claimId && d.verifiabilityClass == c.verifiabilityClass && d.executionState.OK?
            && d.decidedAt == now && d.supportLineages == 0 && d.hasDefinitivePass && !d.provenanceVerifiedSupport
    ensures Synthesized(c, ps, now).expiresAt.None?
  {
    ComposeInheritsEarliestDeadline(Seed(c, now), PremiseDecisions(ps, now), now);
    PremisesShow(ps, now);
  }

  lemma PremisesShow(ps: seq<Premise>, now: int)
    ensures var ds := PremiseDecisions(ps, now);
            && (AnyContested(ds) <==> SomePremise(ps, Contested))
            && ((exists d :: d in ds && Refresh(d, now).status.Refuted?) <==> SomePremise(ps, Refuted))
            && ((exists d :: d in ds && Refresh(d, now).status.Expired?) <==> SomePremise(ps, Expired))
            && (forall d :: d in ds ==> d.expiresAt.None?)
  {
    var ds := PremiseDecisions(ps, now);
    forall d | d in ds
      ensures exists p :: p in ps && d == PremiseDecision(p, now)
    {
      var i :| 0 <= i < |ds| && ds[i] == d;
      assert ps[i] in ps && d == PremiseDecision(ps[i], now);
    }
    forall p | p in ps
      ensures exists d :: d in ds && d == PremiseDecision(p, now) == Refresh(d, now)
    {
      var i :| 0 <= i < |ps| && ps[i] == p;
      assert ds[i] in ds && ds[i] == PremiseDecision(p, now) == Refresh(ds[i], now);
    }
  }

  /** What a premise is composed as: its direction follows its status. */
  lemma PremisePoints(p: Premise, now: int)
    ensures var d, s := PremiseDecision(p, now), p.certification.status;
            && (d.direction.Supports? <==> s.Verified? || s.Corroborated? || s.Supported?)
            && (d.direction.Refutes? <==> s.Refuted?)
            && d.claimId == p.claimId && d.verifiabilityClass == p.verifiabilityClass && d.executionState.OK?
            && d.hasDefinitivePass == p.certification.definitiveNonLlm && d.decidedAt == now
            && d.supportLineages == 0 && !d.provenanceVerifiedSupport
  {
  }

  lemma WeakestIsVerified(c: Conclusion, ps: seq<Premise>, s: EvidenceStatus)
    requires IsWeakest(c, ps, s)
    ensures s.Verified?
            <==> c.verifiabilityClass.Mechanical? && forall p :: p in ps ==> p.certification.status.Verified?
  {
    if s.Verified? {
      forall p | p in ps
        ensures p.certification.status.Verified?
      {
        assert Rank(s) <= Rank(p.certification.status);
      }
    }
  }

  lemma VerifiedExactly(c: Conclusion, ps: seq<Premise>, now: int)
    ensures Synthesized(c, ps, now).status.Verified?
            <==> c.verifiabilityClass.Mechanical? && forall p :: p in ps ==> p.certification.status.Verified?
    ensures Synthesized(c, ps, now).modelDerivedSupportOnly
            <==> exists p :: p in ps && p.certification.modelDerivedSupportOnly
  {
    SynthesisIsWeakest(c, ps, now);
    WeakestIsVerified(c, ps, Synthesized(c, ps, now).status);
  }

  lemma CautionsAreNoticed(c: Conclusion, ps: seq<Premise>, der: Derivation)
    requires ps != []
    ensures (forall a :: a in AdvisoriesFor(c, ps, der) ==> a.severity.Info?)
            <==> der.trusted && forall a :: a in c.advisories ==> a.severity.Info?
  {
    var advisories := AdvisoriesFor(c, ps, der);
    if !der.trusted {
      assert advisories[|advisories| - 1] in advisories;
    }
  }

  /** No laundering: a conclusion is released in full exactly when everything behind it is settled. */
  lemma ReleasedExactly(c: Conclusion, ps: seq<Premise>, der: Derivation, now: int, decision: ReleaseDecision, tier: nat)
    requires IsRelease(CertificationFor(c, ps, der.trusted, now), AdvisoriesFor(c, ps, der), decision, tier)
    ensures decision.Allow? <==> Settled(c, ps, der.trusted)
  {
    AllowedExactly(CertificationFor(c, ps, der.trusted, now), AdvisoriesFor(c, ps, der), decision, tier);
    if ps != [] {
      VerifiedExactly(c, ps, now);
      CautionsAreNoticed(c, ps, der);
    }
  }

  lemma WeakestIsUnique(c: Conclusion, ps: seq<Premise>, ps': seq<Premise>, s: EvidenceStatus, s': EvidenceStatus)
    requires forall p :: p in ps <==> p in ps'
    requires IsWeakest(c, ps, s) && IsWeakest(c, ps', s')
    ensures s == s'
  {
    assert Rank(s) == Rank(s');
  }

  /** Neither the order nor the repetition of premises affects the certification, and so the release. */
  lemma PremiseOrderIsIrrelevant(c: Conclusion, ps: seq<Premise>, ps': seq<Premise>, trustedDerivation: bool, now: int)
    requires forall p :: p in ps <==> p in ps'
    ensures CertificationFor(c, ps, trustedDerivation, now) == CertificationFor(c, ps', trustedDerivation, now)
  {
    assert ps != [] ==> ps[0] in ps;
    assert ps' != [] ==> ps'[0] in ps';
    SynthesisIsWeakest(c, ps, now);
    SynthesisIsWeakest(c, ps', now);
    WeakestIsUnique(c, ps, ps', Synthesized(c, ps, now).status, Synthesized(c, ps', now).status);
  }

  /** `synthesize`: what it returns passes its own check. */
  method Synthesize(d: Digests, disclaimer: string, c: Conclusion, premises: seq<Option<Premise>>, der: Derivation,
                    key: Option<string>, now: int)
    returns (r: Result<ConclusionResult>)
    requires d.Valid()
    ensures r.Raised? <==> Raises(c, Present(premises), der, key)
    ensures r.Ok? ==>
              var ps, x := Present(premises), r.value;
              && (if ps == [] then x.status.Unverified? else IsWeakest(c, ps, x.status))
              && (x.decision.Allow? <==> Settled(c, ps, der.trusted))
              && IsRelease(CertificationFor(c, ps, der.trusted, now), AdvisoriesFor(c, ps, der), x.decision, x.tier)
              && x.claimId == c.claimId && x.supportGraph == NodesOf(ps)
              && x.receipt.content == ReceiptContent(d, disclaimer, c, ps, der, CertificationFor(c, ps, der.trusted, now),
                                                     x.graphHash, x.decision, x.tier)
              && VerifyConclusion(d, x, key) == VerifyConclusion(d, x, None) == Ok(true)
  {
    var ps := Present(premises);
    var nodes := NodesOf(ps);
    var graphHash := GraphHash(d.hash, c.claimId, nodes);
    HashableExactly(d.hash, c.claimId, nodes);
    if graphHash.Raised? {
      return Raised;
    }
    var cert := CertificationFor(c, ps, der.trusted, now);
    var decision, tier := Enforce(cert, AdvisoriesFor(c, ps, der));
    TierIsSmall(cert, AdvisoriesFor(c, ps, der), decision, tier);
    var content := ReceiptContent(d, disclaimer, c, ps, der, cert, graphHash.value, decision, tier);
    IssuedExactly(d, content, key);
    var receipt := Issue(d, content, key);
    if receipt.Raised? {
      return Raised;
    }
    SynthesisIsWeakest(c, ps, now);
    ReleasedExactly(c, ps, der, now, decision, tier);
    var x := ConclusionResult(c.claimId, cert.status, decision, tier, nodes, graphHash.value, receipt.value);
    AnchoredPasses(d, x, content, key);
    r := Ok(x);
  }

  /** Two verified conclusions anchored to one hash are about one claim and rest on the same premises. */
  lemma SameAnchorSameSupport(d: Digests, x: ConclusionResult, y: ConclusionResult, key: Option<string>, key': Option<string>)
    requires IsInjective(d.hash) && VerifyConclusion(d, x, key) == Ok(true) && VerifyConclusion(d, y, key') == Ok(true)
    requires x.graphHash == y.graphHash
    ensures x.claimId == y.claimId && multiset(x.supportGraph) == multiset(y.supportGraph)
  {
    HashPinsGraph(d.hash, x.claimId, y.claimId, x.supportGraph, y.supportGraph);
    assert multiset(SortNodes(x.supportGraph)) == multiset(SortNodes(y.supportGraph));
  }

  /** A current receipt hash pins everything at once: the recorded decision and, through the anchor, the premises. */
  lemma SameReceiptSameSupport(d: Digests, x: ConclusionResult, y: ConclusionResult, key: Option<string>, key': Option<string>)
    requires IsInjective(d.hash) && VerifyConclusion(d, x, key) == Ok(true) && VerifyConclusion(d, y, key') == Ok(true)
    requires x.receipt.content.engineVersion != LEGACY_VERSION && y.receipt.content.engineVersion != LEGACY_VERSION
    requires x.receipt.receiptHash == y.receipt.receiptHash
    ensures x.receipt.content == y.receipt.content
    ensures x.claimId == y.claimId && multiset(x.supportGraph) == multiset(y.supportGraph)
  {
    HashPinsContent(d, x.receipt, y.receipt, key, key');
    SameAnchorSameSupport(d, x, y, key, key');
  }

  /** Verification looks at the anchor and the receipt: the status, decision and tier handed back beside them are not pinned. */
  lemma BareFieldsAreNotPinned(d: Digests, x: ConclusionResult, key: Option<string>,
                               status: EvidenceStatus, decision: ReleaseDecision, tier: nat)
    ensures VerifyConclusion(d, x.(status := status, decision := decision, tier := tier), key) == VerifyConclusion(d, x, key)
  {
  }

  /** A conclusion passes exactly where its anchor is the hash of its premises and a passing receipt carries claim and anchor. */
  lemma ConclusionPassesExactly(d: Digests, x: ConclusionResult, key: Option<string>)
    ensures VerifyConclusion(d, x, key) == Ok(true)
            <==> && GraphHash(d.hash, x.claimId, x.supportGraph) == Ok(x.graphHash)
                 && x.receipt.content.claimId == x.claimId && x.receipt.content.certRecordHash == x.graphHash
                 && Verify(d, x.receipt, key, false) == Ok(true)
  {
  }
}
