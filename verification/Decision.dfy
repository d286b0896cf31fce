/** Assigning a status to a single claim: `decide_status` of glass_ionomer/verify/status.py. */
module Decision {
  import opened Wrappers
  import opened Status

  datatype AuthorityTier = Authoritative | PeerReviewed | Preprint | Dataset | Web | Unknown

  datatype VerifierKind =
    | Symbolic | FormalProof | CodeTest | Deterministic
    | AuthoritativeLookup | SignedDocument | RulesEngine
    | LlmEntailment | LlmCritic

  datatype VerifierOutcome = Passes | Fails | Inconclusive | Errs | TimesOut

  datatype Entailment = Entails | Contradicts | Silent

  datatype Claim = Claim(id: string, verifiabilityClass: VerifiabilityClass, ttl: Option<int>)

  /** Strengths are reals; the source validates that they are finite and within [0, 1]. */
  datatype EvidenceItem = EvidenceItem(
    lineageId: string,
    entailment: Entailment,
    integrityVerified: bool,
    isFresh: bool,
    applicable: bool,
    strength: real,
    independenceKey: Option<string>,
    quoteBound: bool,
    modelDerivedStance: bool,
    provenanceVerified: bool)

  datatype VerifierResult = VerifierResult(
    kind: VerifierKind,
    outcome: VerifierOutcome,
    isLlm: bool,
    sourceAuthority: AuthorityTier,
    sourceIntegrityVerified: bool,
    formalizationChecked: bool,
    applicable: bool)

  datatype StatusPolicy = StatusPolicy(
    corroborationMinLineages: int,
    supportMinStrength: real,
    contradictionMinStrength: real,
    minAuthorityForVerified: set<AuthorityTier>)
  {
    predicate Valid() {
      && corroborationMinLineages >= 1
      && 0.0 <= supportMinStrength <= 1.0
      && 0.0 <= contradictionMinStrength <= 1.0
      && minAuthorityForVerified != {}
    }
  }

  const DEFAULT_POLICY := StatusPolicy(2, 0.3, 0.5, {Authoritative})

  predicate Admissible(e: EvidenceItem) {
    e.applicable && e.integrityVerified && e.isFresh
  }

  predicate IsSupport(e: EvidenceItem, p: StatusPolicy) {
    Admissible(e) && e.entailment.Entails? && e.strength >= p.supportMinStrength && e.quoteBound
  }

  predicate IsContradiction(e: EvidenceItem, p: StatusPolicy) {
    Admissible(e) && e.entailment.Contradicts? && e.strength >= p.contradictionMinStrength && e.quoteBound
  }

  /** Independent items are told apart by provenance key where they have one, and by lineage otherwise. */
  datatype LineageKey = Provenance(key: string) | Lineage(id: string)

  function KeyOf(e: EvidenceItem): LineageKey {
    if e.independenceKey.Some? && e.independenceKey.value != "" then Provenance(e.independenceKey.value)
    else Lineage(e.lineageId)
  }

  function SupportKeys(evidence: seq<EvidenceItem>, p: StatusPolicy): set<LineageKey> {
    set e | e in evidence && IsSupport(e, p) :: KeyOf(e)
  }

  function TrustedKeys(evidence: seq<EvidenceItem>, p: StatusPolicy): set<LineageKey> {
    set e | e in evidence && IsSupport(e, p) && e.provenanceVerified :: KeyOf(e)
  }

  predicate HasSupport(evidence: seq<EvidenceItem>, p: StatusPolicy) {
    exists e :: e in evidence && IsSupport(e, p)
  }

  predicate Contradicted(evidence: seq<EvidenceItem>, p: StatusPolicy) {
    exists e :: e in evidence && IsContradiction(e, p)
  }

  predicate OnlyModelDerived(evidence: seq<EvidenceItem>, p: StatusPolicy) {
    forall e :: e in evidence && IsSupport(e, p) ==> e.modelDerivedStance
  }

  predicate AnyProven(evidence: seq<EvidenceItem>, p: StatusPolicy) {
    exists e :: e in evidence && IsSupport(e, p) && e.provenanceVerified
  }

  predicate IsIntrinsic(k: VerifierKind) {
    k.Symbolic? || k.FormalProof? || k.CodeTest? || k.Deterministic?
  }

  predicate IsSourced(k: VerifierKind) {
    k.AuthoritativeLookup? || k.SignedDocument? || k.RulesEngine?
  }

  predicate IsDefinitive(v: VerifierResult, p: StatusPolicy) {
    && !v.isLlm && v.applicable
    && (IsIntrinsic(v.kind)
        || (IsSourced(v.kind) && v.sourceIntegrityVerified && v.sourceAuthority in p.minAuthorityForVerified))
  }

  /** Some definitive verifier had outcome `o`, with its claim binding checked or not. */
  predicate Definitively(vs: seq<VerifierResult>, p: StatusPolicy, o: VerifierOutcome, bound: bool) {
    exists v :: v in vs && IsDefinitive(v, p) && v.outcome == o && v.formalizationChecked == bound
  }

  function ApplyCeiling(s: EvidenceStatus, c: VerifiabilityClass): EvidenceStatus {
    if IsPositive(s) && Ladder(s) > Ladder(Ceiling(c)) then Ceiling(c) else s
  }

  function Finalize(claim: Claim, status: EvidenceStatus, exec: ExecutionState, direction: Direction,
                    contested: bool, lineages: nat, hasPass: bool, now: int,
                    modelDerived: bool, provenance: bool): StatusDecision
  {
    StatusDecision(
      claim.id, status, exec, claim.verifiabilityClass, direction, contested, lineages, hasPass, now,
      if IsPositive(status) && claim.ttl.Some? then Some(now + claim.ttl.value) else None,
      modelDerived, provenance)
  }

  /** Everything the status predicates look at. */
  datatype Signals = Signals(fail: bool, pass: bool, unboundFail: bool, supported: bool, contradicted: bool, corroborated: bool)

  function SignalsOf(vs: seq<VerifierResult>, evidence: seq<EvidenceItem>, p: StatusPolicy): Signals {
    Signals(
      Definitively(vs, p, Fails, true), Definitively(vs, p, Passes, true), Definitively(vs, p, Fails, false),
      HasSupport(evidence, p), Contradicted(evidence, p),
      |TrustedKeys(evidence, p)| >= p.corroborationMinLineages)
  }

  /** The raw status predicate, before the ceiling. */
  function Candidate(g: Signals): (EvidenceStatus, Direction) {
    if g.fail then (Refuted, Refutes)
    else if g.pass then
      if g.contradicted then (Contested, Neutral) else (Verified, Supports)
    else if g.corroborated && !g.contradicted then (Corroborated, Supports)
    else if g.supported && !g.contradicted then (Supported, Supports)
    else if g.supported && g.contradicted then (Contested, Neutral)
    else if g.contradicted then (Unverified, Refutes)
    else if g.unboundFail then (Unverified, Refutes)
    else (Unverified, Neutral)
  }

  function DecideStatus(claim: Claim, vs: seq<VerifierResult>, evidence: seq<EvidenceItem>, now: int,
                        p: StatusPolicy, exec: ExecutionState): StatusDecision
  {
    if exec.Error? || exec.Timeout? || exec.BudgetExhausted? || exec.Skipped? then
      Finalize(claim, Unverified, exec, Neutral, false, 0, false, now, false, false)
    else if vs == [] && evidence == [] then
      Finalize(claim, Unverified, NoEvidence, Neutral, false, 0, false, now, false, false)
    else
      var g := SignalsOf(vs, evidence, p);
      var (candidate, direction) := Candidate(g);
      Finalize(
        claim, ApplyCeiling(candidate, claim.verifiabilityClass), OK, direction,
        g.contradicted && (g.supported || (g.pass && !g.fail)),
        |SupportKeys(evidence, p)|, g.pass, now,
        g.supported && OnlyModelDerived(evidence, p), AnyProven(evidence, p))
  }

  predicate Ran(exec: ExecutionState) {
    exec.OK? || exec.NoEvidence?
  }

  lemma SubsetIsSmaller(a: set<LineageKey>, b: set<LineageKey>)
    requires a <= b
    ensures |a| <= |b|
  {
    assert b == a + (b - a);
  }

  lemma CorroborationIsSupport(vs: seq<VerifierResult>, evidence: seq<EvidenceItem>, p: StatusPolicy)
    requires p.Valid()
    ensures SignalsOf(vs, evidence, p).corroborated ==> SignalsOf(vs, evidence, p).supported
    ensures |SupportKeys(evidence, p)| >= 1 <==> HasSupport(evidence, p)
  {
    if e :| e in evidence && IsSupport(e, p) {
      assert KeyOf(e) in SupportKeys(evidence, p);
    } else {
      assert SupportKeys(evidence, p) == {} == TrustedKeys(evidence, p);
    }
  }

  function CappedCandidate(g: Signals, cls: VerifiabilityClass): EvidenceStatus {
    ApplyCeiling(Candidate(g).0, cls)
  }

  /** Having nothing at all to look at is no special case for the status. */
  lemma StatusFromSignals(claim: Claim, vs: seq<VerifierResult>, evidence: seq<EvidenceItem>, now: int,
                          p: StatusPolicy, exec: ExecutionState)
    requires p.Valid()
    ensures DecideStatus(claim, vs, evidence, now, p, exec).status
            == if Ran(exec) then CappedCandidate(SignalsOf(vs, evidence, p), claim.verifiabilityClass) else Unverified
  {
    CorroborationIsSupport(vs, evidence, p);
  }

  /** What each status takes. Corroboration counts provenance-verified lineages only. */
  predicate Earns(g: Signals, cls: VerifiabilityClass, ran: bool, s: EvidenceStatus) {
    match s
    case Verified => ran && cls.Mechanical? && g.pass && !g.fail && !g.contradicted
    case Corroborated =>
      ran && !g.fail && !g.contradicted && !cls.Interpretive? && if g.pass then cls.Empirical? else g.corroborated
    case Supported =>
      ran && !g.fail && !g.contradicted
      && ((cls.Interpretive? && (g.pass || g.supported)) || (!g.pass && g.supported && !g.corroborated))
    case Contested => ran && !g.fail && g.contradicted && (g.pass || g.supported)
    case Refuted => ran && g.fail
    case Unverified => !ran || (!g.fail && !g.pass && !g.supported)
    case Expired => false
  }

  /** Each status is reached exactly through its own predicate, and EXPIRED never at decision time. */
  lemma StatusIsEarned(claim: Claim, vs: seq<VerifierResult>, evidence: seq<EvidenceItem>, now: int,
                       p: StatusPolicy, exec: ExecutionState, s: EvidenceStatus)
    requires p.Valid()
    ensures DecideStatus(claim, vs, evidence, now, p, exec).status == s
            <==> Earns(SignalsOf(vs, evidence, p), claim.verifiabilityClass, Ran(exec), s)
  {
    CorroborationIsSupport(vs, evidence, p);
    StatusFromSignals(claim, vs, evidence, now, p, exec);
  }

  /** A decision points in support exactly when it is positive, and against its claim wherever it is refuted. */
  lemma DirectionFollowsStatus(claim: Claim, vs: seq<VerifierResult>, evidence: seq<EvidenceItem>, now: int,
                               p: StatusPolicy, exec: ExecutionState)
    requires p.Valid()
    ensures var d := DecideStatus(claim, vs, evidence, now, p, exec);
            && (IsPositive(d.status) <==> d.direction.Supports?)
            && (d.status.Refuted? ==> d.direction.Refutes?)
  {
    CorroborationIsSupport(vs, evidence, p);
  }

  /** The contested flag means CONTESTED unless the claim is refuted. */
  lemma ContestedFlagExactly(claim: Claim, vs: seq<VerifierResult>, evidence: seq<EvidenceItem>, now: int,
                             p: StatusPolicy, exec: ExecutionState)
    requires p.Valid()
    ensures var d := DecideStatus(claim, vs, evidence, now, p, exec);
            d.contested && !d.status.Refuted? <==> d.status.Contested?
  {
    CorroborationIsSupport(vs, evidence, p);
  }

  /** A deadline comes exactly with a positive status and a lifetime, so nothing is handed out already expired. */
  lemma DeadlineExactly(claim: Claim, vs: seq<VerifierResult>, evidence: seq<EvidenceItem>, now: int,
                        p: StatusPolicy, exec: ExecutionState)
    ensures var d := DecideStatus(claim, vs, evidence, now, p, exec);
            && (d.expiresAt.Some? <==> IsPositive(d.status) && claim.ttl.Some?)
            && (claim.ttl.Some? && claim.ttl.value > 0 ==> !IsExpired(d, now))
  {
  }

  /** Corroboration without a definitive pass rests on verified provenance, and model-only support is support. */
  lemma SupportIsOnRecord(claim: Claim, vs: seq<VerifierResult>, evidence: seq<EvidenceItem>, now: int,
                          p: StatusPolicy, exec: ExecutionState)
    requires p.Valid()
    ensures var d := DecideStatus(claim, vs, evidence, now, p, exec);
            && (d.status.Corroborated? && !d.hasDefinitivePass ==> d.provenanceVerifiedSupport)
            && (d.modelDerivedSupportOnly ==> d.supportLineages >= 1)
  {
    CorroborationIsSupport(vs, evidence, p);
    if |TrustedKeys(evidence, p)| >= 1 {
      var k :| k in TrustedKeys(evidence, p);
    }
  }

  /** The status that the policy document's table assigns: it counts lineages whether or not their provenance is verified. */
  function DocumentedStatus(claim: Claim, vs: seq<VerifierResult>, evidence: seq<EvidenceItem>, p: StatusPolicy,
                            exec: ExecutionState): EvidenceStatus
  {
    var pass, fail := Definitively(vs, p, Passes, true), Definitively(vs, p, Fails, true);
    var contradicted, lineages := Contradicted(evidence, p), |SupportKeys(evidence, p)|;
    ApplyCeiling(
      if !Ran(exec) then Unverified
      else if fail then Refuted
      else if pass && !contradicted then Verified
      else if lineages >= p.corroborationMinLineages && !contradicted then Corroborated
      else if lineages >= 1 && !contradicted then Supported
      else if contradicted && (pass || lineages >= 1) then Contested
      else Unverified,
      claim.verifiabilityClass)
  }

  /** Enough lineages support the claim, but too few of them with verified provenance. */
  predicate LacksProvenance(evidence: seq<EvidenceItem>, p: StatusPolicy) {
    |SupportKeys(evidence, p)| >= p.corroborationMinLineages > |TrustedKeys(evidence, p)|
  }

  lemma TrustedAreSupports(evidence: seq<EvidenceItem>, p: StatusPolicy)
    ensures |TrustedKeys(evidence, p)| <= |SupportKeys(evidence, p)|
  {
    SubsetIsSmaller(TrustedKeys(evidence, p), SupportKeys(evidence, p));
  }

  /** The code departs from the table exactly where provenance alone stands between a claim and corroboration. */
  lemma DocumentedExactly(claim: Claim, vs: seq<VerifierResult>, evidence: seq<EvidenceItem>, now: int,
                          p: StatusPolicy, exec: ExecutionState)
    requires p.Valid()
    ensures DecideStatus(claim, vs, evidence, now, p, exec).status != DocumentedStatus(claim, vs, evidence, p, exec)
            <==> && Ran(exec) && !Definitively(vs, p, Passes, true) && !Definitively(vs, p, Fails, true)
                 && !Contradicted(evidence, p) && !claim.verifiabilityClass.Interpretive? && LacksProvenance(evidence, p)
  {
    StatusFromSignals(claim, vs, evidence, now, p, exec);
    CorroborationIsSupport(vs, evidence, p);
    TrustedAreSupports(evidence, p);
  }

  function Witness(lineage: string): EvidenceItem {
    EvidenceItem(lineage, Entails, true, true, true, 1.0, None, true, false, false)
  }

  /** Two independent lineages of unverified provenance corroborate by the table, and support by the code. */
  lemma UntrustedLineagesSupport(now: int)
    ensures var claim, evidence := Claim("c", Empirical, None), [Witness("a"), Witness("b")];
            && DocumentedStatus(claim, [], evidence, DEFAULT_POLICY, OK).Corroborated?
            && DecideStatus(claim, [], evidence, now, DEFAULT_POLICY, OK).status.Supported?
  {
    var claim, evidence := Claim("c", Empirical, None), [Witness("a"), Witness("b")];
    var a, b := Lineage("a"), Lineage("b");
    assert evidence[0] in evidence && evidence[1] in evidence;
    assert SupportKeys(evidence, DEFAULT_POLICY) == {a, b};
    assert TrustedKeys(evidence, DEFAULT_POLICY) == {};
    StatusFromSignals(claim, [], evidence, now, DEFAULT_POLICY, OK);
  }

  /** A definitive pass on an empirical claim is capped to CORROBORATED with no lineage behind it. */
  lemma PassCorroborates(now: int)
    ensures var vs := [VerifierResult(Symbolic, Passes, false, Unknown, false, true, true)];
            var d := DecideStatus(Claim("c", Empirical, None), vs, [], now, DEFAULT_POLICY, OK);
            d.status.Corroborated? && d.supportLineages == 0
  {
    var v := VerifierResult(Symbolic, Passes, false, Unknown, false, true, true);
    var vs := [v];
    assert v in vs && forall w :: w in vs ==> w == v;
    assert SupportKeys([], DEFAULT_POLICY) == {};
    StatusFromSignals(Claim("c", Empirical, None), vs, [], now, DEFAULT_POLICY, OK);
  }

  /** The same verifiers once models are set aside, and the same evidence once the inadmissible is. */
  ghost predicate SameGrounds(vs: seq<VerifierResult>, vs': seq<VerifierResult>,
                              evidence: seq<EvidenceItem>, evidence': seq<EvidenceItem>)
  {
    && (forall v: VerifierResult :: !v.isLlm ==> (v in vs <==> v in vs'))
    && (forall e :: Admissible(e) ==> (e in evidence <==> e in evidence'))
  }

  lemma SameGroundsSameSignals(vs: seq<VerifierResult>, vs': seq<VerifierResult>,
                               evidence: seq<EvidenceItem>, evidence': seq<EvidenceItem>, p: StatusPolicy)
    requires SameGrounds(vs, vs', evidence, evidence')
    ensures SignalsOf(vs, evidence, p) == SignalsOf(vs', evidence', p)
    ensures SupportKeys(evidence, p) == SupportKeys(evidence', p)
    ensures OnlyModelDerived(evidence, p) == OnlyModelDerived(evidence', p) && AnyProven(evidence, p) == AnyProven(evidence', p)
  {
    assert SupportKeys(evidence, p) == SupportKeys(evidence', p);
    assert TrustedKeys(evidence, p) == TrustedKeys(evidence', p);
  }

  /**
   Model verdicts and inadmissible evidence, whether added, dropped, repeated or reordered, change nothing
   about a decision except possibly that there was nothing at all to look at.
  */
  lemma DecisionIgnoresModelsAndInadmissible(claim: Claim, vs: seq<VerifierResult>, vs': seq<VerifierResult>,
                                             evidence: seq<EvidenceItem>, evidence': seq<EvidenceItem>,
                                             now: int, p: StatusPolicy, exec: ExecutionState)
    requires p.Valid() && SameGrounds(vs, vs', evidence, evidence')
    ensures var d, d' := DecideStatus(claim, vs, evidence, now, p, exec), DecideStatus(claim, vs', evidence', now, p, exec);
            d == d'.(executionState := d.executionState)
  {
    SameGroundsSameSignals(vs, vs', evidence, evidence', p);
    CorroborationIsSupport(vs, evidence, p);
    CorroborationIsSupport(vs', evidence', p);
  }

  /** One more admissible support never lowers the status. */
  lemma SupportNeverLowers(claim: Claim, vs: seq<VerifierResult>, evidence: seq<EvidenceItem>, e: EvidenceItem,
                           now: int, p: StatusPolicy, exec: ExecutionState)
    requires p.Valid() && IsSupport(e, p)
    ensures Rank(DecideStatus(claim, vs, evidence, now, p, exec).status)
            <= Rank(DecideStatus(claim, vs, evidence + [e], now, p, exec).status)
  {
    var more := evidence + [e];
    SubsetIsSmaller(TrustedKeys(evidence, p), TrustedKeys(more, p));
    StatusFromSignals(claim, vs, evidence, now, p, exec);
    StatusFromSignals(claim, vs, more, now, p, exec);
    var g, h := SignalsOf(vs, evidence, p), SignalsOf(vs, more, p);
    assert e in more && h.supported;
    assert h.contradicted == g.contradicted;
  }

  /** One more credible contradiction never raises it. */
  lemma ContradictionNeverRaises(claim: Claim, vs: seq<VerifierResult>, evidence: seq<EvidenceItem>, e: EvidenceItem,
                                 now: int, p: StatusPolicy, exec: ExecutionState)
    requires p.Valid() && IsContradiction(e, p)
    ensures Rank(DecideStatus(claim, vs, evidence + [e], now, p, exec).status)
            <= Rank(DecideStatus(claim, vs, evidence, now, p, exec).status)
  {
    var more := evidence + [e];
    CorroborationIsSupport(vs, evidence, p);
    StatusFromSignals(claim, vs, evidence, now, p, exec);
    StatusFromSignals(claim, vs, more, now, p, exec);
    assert TrustedKeys(evidence, p) == TrustedKeys(more, p);
    var g, h := SignalsOf(vs, evidence, p), SignalsOf(vs, more, p);
    assert e in more && h.contradicted;
    assert h == g.(contradicted := true);
  }
}
