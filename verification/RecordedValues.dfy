/** What is recorded and hashed about a release, field by field: glass_ionomer/engine/enforcer.py and synthesizer.py. */
module RecordedValues {
  import opened Wrappers
  import opened Sequences
  import opened Sorting
  import opened Lexicographic
  import opened Status
  import opened Enforcer
  import opened CanonicalValues
  import opened GraphAnchor
  import opened Receipts

  /** The status a recorded text names. */
  function StatusOf(text: string): Option<EvidenceStatus> {
    if text == "verified" then Some(Verified)
    else if text == "corroborated" then Some(Corroborated)
    else if text == "supported" then Some(Supported)
    else if text == "contested" then Some(Contested)
    else if text == "unverified" then Some(Unverified)
    else if text == "refuted" then Some(Refuted)
    else if text == "expired" then Some(Expired)
    else None
  }

  function DecisionOf(text: string): Option<ReleaseDecision> {
    if text == "allow" then Some(Allow)
    else if text == "allow_with_notice" then Some(AllowWithNotice)
    else if text == "require_clarification" then Some(RequireClarification)
    else if text == "escalate" then Some(Escalate)
    else if text == "refuse" then Some(Refuse)
    else None
  }

  function SeverityOf(text: string): Option<Severity> {
    if text == "info" then Some(Info)
    else if text == "caution" then Some(Caution)
    else if text == "block" then Some(Block)
    else None
  }

  lemma StatusReadsBack(s: EvidenceStatus)
    ensures StatusOf(StatusText(s)) == Some(s)
  {
    var t := StatusText(s);
    assert |"verified"| == 8 && |"corroborated"| == 12 && |"supported"| == 9 && |"contested"| == 9;
    assert "supported"[0] == 's' && "contested"[0] == 'c' && "refuted"[0] == 'r' && "expired"[0] == 'e';
  }

  lemma DecisionReadsBack(d: ReleaseDecision)
    ensures DecisionOf(DecisionText(d)) == Some(d)
  {
    assert "escalate"[0] == 'e';
  }

  lemma SeverityReadsBack(s: Severity)
    ensures SeverityOf(SeverityText(s)) == Some(s)
  {
  }

  /** Each key comes before the next one. */
  ghost predicate StepsUp(es: seq<Entry>) {
    forall i, j :: 0 <= i && j == i + 1 < |es| ==> Less(es[i].key, es[j].key)
  }

  lemma {:induction false} StepsUpIncreases(es: seq<Entry>, i: nat, j: nat)
    requires StepsUp(es) && i < j < |es|
    ensures Less(es[i].key, es[j].key)
    decreases j
  {
    if j == i + 1 {
    } else {
      StepsUpIncreases(es, i, j - 1);
      LessTransitive(es[i].key, es[j - 1].key, es[j].key);
    }
  }

  /** Where two texts part, the smaller character decides. */
  lemma PartsAt(a: string, b: string, k: nat)
    requires PartsBelow(a, b, k)
    ensures Less(a, b)
  {
    LessExactly(a, b);
  }

  lemma NodeKeysIncrease(n: SupportNode)
    ensures StepsUp(NodeValue(n).entries)
  {
    PartsAt("claim_id", "definitive_nonllm", 0);
    PartsAt("definitive_nonllm", "record_hash", 0);
    PartsAt("record_hash", "status", 0);
  }

  lemma GraphKeysIncrease(id: string, ns: seq<SupportNode>)
    ensures StepsUp(GraphValue(id, ns).entries)
  {
    PartsAt("conclusion", "premises", 0);
  }

  function ContentKey(i: nat): string {
    match i
    case 0 => "advisories"
    case 1 => "cert_definitive_nonllm"
    case 2 => "cert_record_hash"
    case 3 => "cert_source"
    case 4 => "cert_status"
    case 5 => "claim_id"
    case 6 => "disclaimer"
    case 7 => "engine_version"
    case 8 => "raw_claim_sha256"
    case 9 => "release_decision"
    case 10 => "risk_tier"
    case _ => "verification_plan"
  }

  /** Where a field's name parts from the next one's. */
  function ContentKeysPart(i: nat): (k: nat)
    requires i < 11
    ensures PartsBelow(ContentKey(i), ContentKey(i + 1), k)
  {
    match i
    case 1 => 5
    case 2 => 5
    case 3 => 6
    case 4 => 1
    case 8 => 1
    case 9 => 1
    case _ => 0
  }

  lemma ContentKeySteps(i: nat)
    requires i < 11
    ensures Less(ContentKey(i), ContentKey(i + 1))
  {
    PartsAt(ContentKey(i), ContentKey(i + 1), ContentKeysPart(i));
  }

  lemma ContentKeysIncrease(c: Content)
    ensures StepsUp(ContentValue(c).entries)
  {
    var es := ContentValue(c).entries;
    ContentKeysListed(c);
    forall i, j | 0 <= i && j == i + 1 < |es|
      ensures Less(es[i].key, es[j].key)
    {
      ContentKeySteps(i);
    }
  }

  lemma ContentKeysListed(c: Content)
    ensures |ContentValue(c).entries| == 12
    ensures forall i :: 0 <= i < 12 ==> ContentValue(c).entries[i].key == ContentKey(i)
  {
    ContentFields(c);
  }

  /** A premise is hashed as a dictionary of its four fields by name. */
  lemma NodeFields(n: SupportNode)
    ensures var v := NodeValue(n);
            && v.VDict? && |v.entries| == 4
            && v.entries[0] == Entry("claim_id", VStr(n.claimId))
            && v.entries[1] == Entry("definitive_nonllm", VBool(n.definitiveNonLlm))
            && v.entries[2] == Entry("record_hash", VStr(n.recordHash))
            && v.entries[3].key == "status" && v.entries[3].value.VStr? && StatusOf(v.entries[3].value.s) == Some(n.status)
  {
    StatusReadsBack(n.status);
  }

  /** The premises of a graph are listed by claim id, and by record hash within a claim. */
  lemma NodesAreOrdered(ns: seq<SupportNode>, i: nat, j: nat)
    requires i < j < |SortNodes(ns)|
    ensures var m, n := SortNodes(ns)[i], SortNodes(ns)[j];
            Less(m.claimId, n.claimId)
            || (m.claimId == n.claimId && (Less(m.recordHash, n.recordHash) || m.recordHash == n.recordHash))
  {
    KeyLessIsOrder();
    SortIsSorted(ns, KeyLess);
    var m, n := SortNodes(ns)[i], SortNodes(ns)[j];
    LessTotal(m.claimId, n.claimId);
    LessTotal(m.recordHash, n.recordHash);
  }

  /** The graph is hashed as the conclusion's id and the list of its premises, each once and in order. */
  lemma GraphFields(id: string, ns: seq<SupportNode>)
    ensures var v := GraphValue(id, ns);
            && v.VDict? && |v.entries| == 2 && v.entries[0] == Entry("conclusion", VStr(id))
            && v.entries[1].key == "premises" && v.entries[1].value.VList? && |v.entries[1].value.items| == |ns|
            && forall i :: 0 <= i < |ns| ==> v.entries[1].value.items[i] == NodeValue(SortNodes(ns)[i])
  {
    SameMembers(SortNodes(ns), ns);
  }

  /** Content is hashed as a dictionary of its twelve fields by name. */
  lemma ContentFields(c: Content)
    ensures var v := ContentValue(c);
            && v.VDict? && |v.entries| == 12
            && v.entries[0].key == "advisories" && v.entries[0].value.VList?
            && v.entries[0].value.items == NoticeValues(c.advisories)
            && v.entries[1] == Entry("cert_definitive_nonllm", VBool(c.certDefinitive))
            && v.entries[2] == Entry("cert_record_hash", VStr(c.certRecordHash))
            && v.entries[3] == Entry("cert_source", VStr(c.certSource))
            && v.entries[4] == Entry("cert_status", VStr(c.certStatus))
            && v.entries[5] == Entry("claim_id", VStr(c.claimId))
            && v.entries[6] == Entry("disclaimer", VStr(c.disclaimer))
            && v.entries[7] == Entry("engine_version", VStr(c.engineVersion))
            && v.entries[8] == Entry("raw_claim_sha256", VStr(c.rawClaimHash))
            && v.entries[9] == Entry("release_decision", VStr(c.releaseDecision))
            && v.entries[10] == Entry("risk_tier", VInt(c.riskTier))
            && v.entries[11] == Entry("verification_plan", VStr(c.verificationPlan))
  {
  }
}
