/** What evidence and verifiers bring about in `decide_status`, glass_ionomer/verify/status.py, in terms of their fields. */
module EvidenceTheorems {
  import opened Wrappers
  import opened Status
  import opened Decision

  // ----- Independence -----

  predicate HasKey(e: EvidenceItem) {
    e.independenceKey.Some? && e.independenceKey.value != ""
  }

  /** One non-empty independence key, or none on either side and one lineage. */
  predicate SameOrigin(e: EvidenceItem, f: EvidenceItem) {
    || (HasKey(e) && HasKey(f) && e.independenceKey == f.independenceKey)
    || (!HasKey(e) && !HasKey(f) && e.lineageId == f.lineageId)
  }

  ghost predicate AreIndependent(s: set<EvidenceItem>) {
    forall e, f :: e in s && f in s && e != f ==> !SameOrigin(e, f)
  }

  /** Admissible, entailing, strong enough, and with its quote bound. */
  predicate Backs(e: EvidenceItem, p: StatusPolicy) {
    && e.applicable && e.integrityVerified && e.isFresh && e.quoteBound
    && e.entailment == Entails && e.strength >= p.supportMinStrength
  }

  predicate Disputes(e: EvidenceItem, p: StatusPolicy) {
    && e.applicable && e.integrityVerified && e.isFresh && e.quoteBound
    && e.entailment == Contradicts && e.strength >= p.contradictionMinStrength
  }

  /** The supports, or those of them whose provenance is verified. */
  ghost function Backing(evidence: seq<EvidenceItem>, p: StatusPolicy, proven: bool): set<EvidenceItem> {
    set e | e in evidence && Backs(e, p) && (proven ==> e.provenanceVerified)
  }

  /** `n` items of `pool`, and no more, can be chosen pairwise independent. */
  ghost predicate IsLargestChoice(pool: set<EvidenceItem>, n: nat) {
    && (exists s :: s <= pool && AreIndependent(s) && |s| == n)
    && (forall s :: s <= pool && AreIndependent(s) ==> |s| <= n)
  }

  ghost function Keys(s: set<EvidenceItem>): set<LineageKey> {
    set e | e in s :: KeyOf(e)
  }

  lemma SameOriginSameKey(e: EvidenceItem, f: EvidenceItem)
    ensures SameOrigin(e, f) <==> KeyOf(e) == KeyOf(f)
  {
  }

  /** Independent items have as many keys as there are items. */
  lemma {:induction false} IndependentKeys(s: set<EvidenceItem>)
    requires AreIndependent(s)
    ensures |Keys(s)| == |s|
    decreases |s|
  {
    if s == {} {
      assert Keys(s) == {};
    } else {
      var e :| e in s;
      var rest := s - {e};
      IndependentKeys(rest);
      forall f | f in rest
        ensures KeyOf(f) != KeyOf(e)
      {
        SameOriginSameKey(e, f);
      }
      assert Keys(s) == Keys(rest) + {KeyOf(e)};
    }
  }

  /** One item can be chosen for each key. */
  lemma {:induction false} ChoiceOfKeys(pool: set<EvidenceItem>) returns (s: set<EvidenceItem>)
    ensures s <= pool && AreIndependent(s) && |s| == |Keys(pool)|
    decreases |pool|
  {
    if pool == {} {
      s := {};
      assert Keys(pool) == {};
    } else {
      var e :| e in pool;
      var rest := pool - {e};
      assert Keys(pool) == Keys(rest) + {KeyOf(e)};
      s := ChoiceOfKeys(rest);
      if KeyOf(e) !in Keys(rest) {
        forall f | f in s
          ensures !SameOrigin(e, f) && !SameOrigin(f, e)
        {
          SameOriginSameKey(e, f);
          SameOriginSameKey(f, e);
          assert KeyOf(f) in Keys(rest);
        }
        s := s + {e};
      }
    }
  }

  lemma KeysAreLargestChoice(pool: set<EvidenceItem>)
    ensures IsLargestChoice(pool, |Keys(pool)|)
  {
    var chosen := ChoiceOfKeys(pool);
    forall s | s <= pool && AreIndependent(s)
      ensures |s| <= |Keys(pool)|
    {
      IndependentKeys(s);
      SubsetIsSmaller(Keys(s), Keys(pool));
    }
  }

  lemma BackingKeys(evidence: seq<EvidenceItem>, p: StatusPolicy)
    ensures SupportKeys(evidence, p) == Keys(Backing(evidence, p, false))
    ensures TrustedKeys(evidence, p) == Keys(Backing(evidence, p, true))
  {
    forall e
      ensures IsSupport(e, p) <==> Backs(e, p)
    {
    }
  }

  /** The lineages counted are the most supports that are pairwise independent. */
  lemma LineagesExactly(claim: Claim, vs: seq<VerifierResult>, evidence: seq<EvidenceItem>, now: int,
                        p: StatusPolicy, exec: ExecutionState)
    ensures var n := DecideStatus(claim, vs, evidence, now, p, exec).supportLineages;
            if exec.OK? || exec.NoEvidence? then IsLargestChoice(Backing(evidence, p, false), n) else n == 0
  {
    BackingKeys(evidence, p);
    KeysAreLargestChoice(Backing(evidence, p, false));
    if evidence == [] {
      assert Backing(evidence, p, false) == {};
      assert Keys(Backing(evidence, p, false)) == {};
    }
  }

  // ----- The status over the fields -----

  /** A verifier that may settle a claim: no model, in scope, and definitive by its kind or by its source. */
  predicate IsAuthority(v: VerifierResult, p: StatusPolicy) {
    && !v.isLlm && v.applicable
    && match v.kind
       case Symbolic => true
       case FormalProof => true
       case CodeTest => true
       case Deterministic => true
       case AuthoritativeLookup => v.sourceIntegrityVerified && v.sourceAuthority in p.minAuthorityForVerified
       case SignedDocument => v.sourceIntegrityVerified && v.sourceAuthority in p.minAuthorityForVerified
       case RulesEngine => v.sourceIntegrityVerified && v.sourceAuthority in p.minAuthorityForVerified
       case LlmEntailment => false
       case LlmCritic => false
  }

  ghost predicate Settled(vs: seq<VerifierResult>, p: StatusPolicy, outcome: VerifierOutcome, bound: bool) {
    exists v :: v in vs && IsAuthority(v, p) && v.outcome == outcome && v.formalizationChecked == bound
  }

  /** As many proven supports as the policy asks for are pairwise independent. */
  ghost predicate IsWellBacked(evidence: seq<EvidenceItem>, p: StatusPolicy) {
    exists s :: s <= Backing(evidence, p, true) && AreIndependent(s) && |s| >= p.corroborationMinLineages
  }

  /** What verifiers and evidence show, read off their fields. */
  ghost function Shown(vs: seq<VerifierResult>, evidence: seq<EvidenceItem>, p: StatusPolicy): Signals {
    Signals(
      Settled(vs, p, Fails, true), Settled(vs, p, Passes, true), Settled(vs, p, Fails, false),
      (exists e :: e in evidence && Backs(e, p)), (exists e :: e in evidence && Disputes(e, p)),
      IsWellBacked(evidence, p))
  }

  lemma SignalsAreShown(vs: seq<VerifierResult>, evidence: seq<EvidenceItem>, p: StatusPolicy)
    requires p.Valid()
    ensures SignalsOf(vs, evidence, p) == Shown(vs, evidence, p)
  {
    forall v
      ensures IsDefinitive(v, p) <==> IsAuthority(v, p)
    {
    }
    forall e
      ensures IsSupport(e, p) <==> Backs(e, p)
      ensures IsContradiction(e, p) <==> Disputes(e, p)
    {
    }
    BackingKeys(evidence, p);
    KeysAreLargestChoice(Backing(evidence, p, true));
  }

  /** Each status is reached exactly where the fields of verifiers and evidence earn it. */
  lemma StatusOverFields(claim: Claim, vs: seq<VerifierResult>, evidence: seq<EvidenceItem>, now: int,
                         p: StatusPolicy, exec: ExecutionState, s: EvidenceStatus)
    requires p.Valid()
    ensures DecideStatus(claim, vs, evidence, now, p, exec).status == s
            <==> Earns(Shown(vs, evidence, p), claim.verifiabilityClass, exec.OK? || exec.NoEvidence?, s)
  {
    SignalsAreShown(vs, evidence, p);
    StatusIsEarned(claim, vs, evidence, now, p, exec, s);
  }

  /** Which way an undecided claim points: against the claim where something disputes it or an unbound check failed. */
  lemma DirectionOverFields(claim: Claim, vs: seq<VerifierResult>, evidence: seq<EvidenceItem>, now: int,
                            p: StatusPolicy, exec: ExecutionState)
    requires p.Valid()
    ensures var d, g := DecideStatus(claim, vs, evidence, now, p, exec), Shown(vs, evidence, p);
            && (d.status.Contested? ==> d.direction.Neutral?)
            && (d.status.Unverified? ==>
                  d.direction == if (exec.OK? || exec.NoEvidence?) && (g.contradicted || g.unboundFail) then Refutes else Neutral)
  {
    SignalsAreShown(vs, evidence, p);
    CorroborationIsSupport(vs, evidence, p);
  }

  /** The remaining fields of a decision. */
  lemma RecordOverFields(claim: Claim, vs: seq<VerifierResult>, evidence: seq<EvidenceItem>, now: int,
                         p: StatusPolicy, exec: ExecutionState)
    requires p.Valid()
    ensures var d, ran := DecideStatus(claim, vs, evidence, now, p, exec), exec.OK? || exec.NoEvidence?;
            && d.claimId == claim.id && d.verifiabilityClass == claim.verifiabilityClass && d.decidedAt == now
            && d.executionState == (if !ran then exec else if vs == [] && evidence == [] then NoEvidence else OK)
            && (d.hasDefinitivePass <==> ran && Settled(vs, p, Passes, true))
            && (d.expiresAt.Some? ==> claim.ttl.Some? && d.expiresAt.value == now + claim.ttl.value)
  {
    SignalsAreShown(vs, evidence, p);
  }

  lemma FlagsOverFields(claim: Claim, vs: seq<VerifierResult>, evidence: seq<EvidenceItem>, now: int,
                        p: StatusPolicy, exec: ExecutionState)
    requires p.Valid()
    ensures var d, ran := DecideStatus(claim, vs, evidence, now, p, exec), exec.OK? || exec.NoEvidence?;
            && (d.provenanceVerifiedSupport <==> ran && exists e :: e in evidence && Backs(e, p) && e.provenanceVerified)
            && (d.modelDerivedSupportOnly
                <==> ran && (exists e :: e in evidence && Backs(e, p))
                         && forall e :: e in evidence && Backs(e, p) ==> e.modelDerivedStance)
  {
    forall e
      ensures IsSupport(e, p) <==> Backs(e, p)
    {
    }
    if e :| e in evidence && Backs(e, p) && e.provenanceVerified {
      assert IsSupport(e, p);
    }
  }

  /** An item that neither backs nor disputes a claim never moves its decision. */
  lemma WeightlessEvidence(claim: Claim, vs: seq<VerifierResult>, evidence: seq<EvidenceItem>, e: EvidenceItem,
                           now: int, p: StatusPolicy, exec: ExecutionState)
    requires p.Valid() && (!e.applicable || !e.integrityVerified || !e.isFresh || !e.quoteBound || e.entailment.Silent?)
    ensures var d, d' := DecideStatus(claim, vs, evidence, now, p, exec), DecideStatus(claim, vs, evidence + [e], now, p, exec);
            d'.status == d.status && d'.direction == d.direction && d'.supportLineages == d.supportLineages
  {
    var more := evidence + [e];
    assert forall f :: f in more <==> f in evidence || f == e;
    assert SupportKeys(more, p) == SupportKeys(evidence, p);
    assert TrustedKeys(more, p) == TrustedKeys(evidence, p);
    CorroborationIsSupport(vs, evidence, p);
    CorroborationIsSupport(vs, more, p);
    assert SignalsOf(vs, more, p) == SignalsOf(vs, evidence, p);
  }

  /** Nor does a verifier that is a model, out of scope, or of a kind that settles nothing. */
  lemma WeightlessVerifier(claim: Claim, vs: seq<VerifierResult>, v: VerifierResult, evidence: seq<EvidenceItem>,
                           now: int, p: StatusPolicy, exec: ExecutionState)
    requires p.Valid() && (v.isLlm || !v.applicable || v.kind.LlmEntailment? || v.kind.LlmCritic?)
    ensures var d, d' := DecideStatus(claim, vs, evidence, now, p, exec), DecideStatus(claim, vs + [v], evidence, now, p, exec);
            d'.status == d.status && d'.direction == d.direction && d'.hasDefinitivePass == d.hasDefinitivePass
  {
    var more := vs + [v];
    assert forall w :: w in more <==> w in vs || w == v;
    CorroborationIsSupport(vs, evidence, p);
    assert SignalsOf(more, evidence, p) == SignalsOf(vs, evidence, p);
  }

  /** Items of one origin count once, however many there are, and corroborate nothing by themselves. */
  lemma OneOriginCountsOnce(claim: Claim, vs: seq<VerifierResult>, evidence: seq<EvidenceItem>, now: int,
                            p: StatusPolicy, exec: ExecutionState)
    requires p.Valid() && p.corroborationMinLineages >= 2
    requires forall e, f :: e in evidence && f in evidence ==> SameOrigin(e, f)
    ensures var d := DecideStatus(claim, vs, evidence, now, p, exec);
            d.supportLineages <= 1 && (d.status.Corroborated? ==> d.hasDefinitivePass)
  {
    var d := DecideStatus(claim, vs, evidence, now, p, exec);
    LineagesExactly(claim, vs, evidence, now, p, exec);
    StatusOverFields(claim, vs, evidence, now, p, exec, Corroborated);
    RecordOverFields(claim, vs, evidence, now, p, exec);
    forall proven: bool, s | s <= Backing(evidence, p, proven) && AreIndependent(s)
      ensures |s| <= 1
    {
      AtMostOne(s);
    }
  }

  lemma AtMostOne(s: set<EvidenceItem>)
    requires AreIndependent(s) && forall e, f :: e in s && f in s ==> SameOrigin(e, f)
    ensures |s| <= 1
  {
    if s != {} {
      var e :| e in s;
      assert s == {e};
    }
  }

  /** Under the default policy support takes a strength of 0.3, dispute one of 0.5, and corroboration two origins. */
  lemma DefaultThresholds(e: EvidenceItem, evidence: seq<EvidenceItem>, tier: AuthorityTier)
    ensures Backs(e, DEFAULT_POLICY) ==> e.strength >= 0.3
    ensures Backs(e.(strength := 1.0), DEFAULT_POLICY) && e.strength >= 0.3 ==> Backs(e, DEFAULT_POLICY)
    ensures Disputes(e, DEFAULT_POLICY) ==> e.strength >= 0.5
    ensures Disputes(e.(strength := 1.0), DEFAULT_POLICY) && e.strength >= 0.5 ==> Disputes(e, DEFAULT_POLICY)
    ensures IsWellBacked(evidence, DEFAULT_POLICY)
            <==> exists s :: s <= Backing(evidence, DEFAULT_POLICY, true) && AreIndependent(s) && |s| >= 2
    ensures DEFAULT_POLICY.Valid() && (tier in DEFAULT_POLICY.minAuthorityForVerified <==> tier.Authoritative?)
  {
    assert Authoritative in DEFAULT_POLICY.minAuthorityForVerified;
  }

  /** Under a threshold of one, a single support of verified provenance corroborates, whatever the strength demanded. */
  lemma OneLineageMayCorroborate(e: EvidenceItem, strength: real, tier: AuthorityTier, now: int)
    requires 0.0 <= strength <= 1.0 && e.provenanceVerified && Backs(e, StatusPolicy(1, strength, strength, {tier}))
    ensures var p := StatusPolicy(1, strength, strength, {tier});
            p.Valid() && DecideStatus(Claim("c", Empirical, None), [], [e], now, p, OK).status.Corroborated?
  {
    var p := StatusPolicy(1, strength, strength, {tier});
    assert e in [e] && forall f :: f in [e] ==> f == e;
    assert SupportKeys([e], p) == {KeyOf(e)} && TrustedKeys([e], p) == {KeyOf(e)};
    StatusFromSignals(Claim("c", Empirical, None), [], [e], now, p, OK);
  }
}
