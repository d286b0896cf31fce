/**
 Every field of what `compose_graph` of glass_ionomer/verify/identity.py hands back, in terms of the fields of the
 decisions that go in.
*/
module OutcomeFields {
  import opened Wrappers
  import opened Status
  import opened DependencyGraph
  import opened ClosureSpec
  import opened GraphComposition

  /** A positive decision at or past its deadline. */
  predicate IsOutlived(d: StatusDecision, now: int) {
    && (d.status.Verified? || d.status.Corroborated? || d.status.Supported?)
    && d.expiresAt.Some? && d.expiresAt.value <= now
  }

  predicate IsLapsed(d: StatusDecision, now: int) {
    d.status.Expired? || IsOutlived(d, now)
  }

  function Standing(d: StatusDecision, now: int): EvidenceStatus {
    if IsOutlived(d, now) then Expired else d.status
  }

  /** The fields that no composition touches. */
  predicate SameRecord(d: StatusDecision, e: StatusDecision) {
    && d.claimId == e.claimId && d.executionState == e.executionState && d.verifiabilityClass == e.verifiabilityClass
    && d.supportLineages == e.supportLineages && d.hasDefinitivePass == e.hasDefinitivePass
    && d.provenanceVerifiedSupport == e.provenanceVerifiedSupport
  }

  ghost predicate RefutedBelow(inputs: Inputs, g: Deps, c: Id) {
    exists x :: x in inputs && Below(g, c, x) && inputs[x].status.Refuted?
  }

  ghost predicate LapsedBelow(inputs: Inputs, g: Deps, now: int, c: Id) {
    exists x :: x in inputs && Below(g, c, x) && IsLapsed(inputs[x], now)
  }

  /** A refutation below turns a claim, a lapse below makes it neutral unless it is refuted itself, and so does its own. */
  ghost function DirectionOf(inputs: Inputs, g: Deps, now: int, c: Id): Direction
    requires c in inputs
  {
    if RefutedBelow(inputs, g, c) then Refutes
    else if LapsedBelow(inputs, g, now, c) && !inputs[c].status.Refuted? then Neutral
    else if IsOutlived(inputs[c], now) then Neutral
    else inputs[c].direction
  }

  lemma FreshIsStanding(inputs: Inputs, now: int, x: Id)
    requires x in inputs
    ensures Fresh(inputs, now, x) == Standing(inputs[x], now)
    ensures Refresh(inputs[x], now).direction == if IsOutlived(inputs[x], now) then Neutral else inputs[x].direction
  {
  }

  lemma ShownBelow(inputs: Inputs, g: Deps, now: int, c: Id)
    ensures Has(inputs, now, ClosureBelow(inputs, g, c), Refuted) <==> RefutedBelow(inputs, g, c)
    ensures Has(inputs, now, ClosureBelow(inputs, g, c), Expired) <==> LapsedBelow(inputs, g, now, c)
  {
    var below := ClosureBelow(inputs, g, c);
    forall x | x in inputs
      ensures Fresh(inputs, now, x) == Standing(inputs[x], now)
    {
      FreshIsStanding(inputs, now, x);
    }
    if x :| x in inputs && Below(g, c, x) && inputs[x].status.Refuted? {
      assert x in below && Fresh(inputs, now, x) == Refuted;
    }
    if x :| x in inputs && Below(g, c, x) && IsLapsed(inputs[x], now) {
      assert x in below && Fresh(inputs, now, x) == Expired;
    }
  }

  /** The status of a resolved claim is the least standing one over its closure. */
  lemma StatusOverInputs(inputs: Inputs, g: Deps, now: int, c: Id, d: StatusDecision)
    requires c in inputs && c in g && !Unresolved(g, inputs.Keys, c) && Outcome(inputs, g, now, c, d)
    ensures forall x :: x in inputs && Reaches(g, c, x) ==> Rank(d.status) <= Rank(Standing(inputs[x], now))
    ensures exists x :: x in inputs && Reaches(g, c, x) && d.status == Standing(inputs[x], now)
  {
    var s := Closure(inputs, g, c);
    forall x | x in inputs && Reaches(g, c, x)
      ensures Rank(d.status) <= Rank(Standing(inputs[x], now))
    {
      FreshIsStanding(inputs, now, x);
      assert x in s;
    }
    var x :| x in s && Fresh(inputs, now, x) == d.status;
    FreshIsStanding(inputs, now, x);
  }

  /** Which way it points, and what it keeps. */
  lemma DirectionOverInputs(inputs: Inputs, g: Deps, now: int, c: Id, d: StatusDecision)
    requires c in inputs && c in g && !Unresolved(g, inputs.Keys, c) && Outcome(inputs, g, now, c, d)
    ensures d.direction == DirectionOf(inputs, g, now, c)
    ensures SameRecord(d, inputs[c]) && d.decidedAt == if g[c] == [] then inputs[c].decidedAt else now
  {
    ShownBelow(inputs, g, now, c);
    FreshIsStanding(inputs, now, c);
  }

  /** Its flags and its deadline. */
  lemma FlagsOverInputs(inputs: Inputs, g: Deps, now: int, c: Id, d: StatusDecision)
    requires c in inputs && c in g && !Unresolved(g, inputs.Keys, c) && Outcome(inputs, g, now, c, d)
    ensures d.contested <==> exists x :: x in inputs && Reaches(g, c, x) && inputs[x].contested
    ensures d.modelDerivedSupportOnly <==> exists x :: x in inputs && Reaches(g, c, x) && inputs[x].modelDerivedSupportOnly
    ensures forall x :: x in inputs && Reaches(g, c, x) && inputs[x].expiresAt.Some?
              ==> d.expiresAt.Some? && d.expiresAt.value <= inputs[x].expiresAt.value
    ensures d.expiresAt.Some? ==> exists x :: x in inputs && Reaches(g, c, x) && inputs[x].expiresAt == d.expiresAt
  {
    var s := Closure(inputs, g, c);
    assert forall x :: x in inputs && Reaches(g, c, x) <==> x in s;
    if d.expiresAt.Some? {
      var x :| x in s && inputs[x].expiresAt == d.expiresAt;
    }
  }

  /** An expired outcome points nowhere, unless a decision came in that was expired and pointed somewhere already. */
  lemma ExpiredIsNeutral(inputs: Inputs, g: Deps, now: int, c: Id, d: StatusDecision)
    requires c in inputs && Outcome(inputs, g, now, c, d) && d.status.Expired?
    requires inputs[c].status.Expired? ==> inputs[c].direction.Neutral?
    ensures d.direction.Neutral?
  {
    if c in g && !Unresolved(g, inputs.Keys, c) {
      DirectionOverInputs(inputs, g, now, c, d);
      StatusOverInputs(inputs, g, now, c, d);
      var x :| x in inputs && Reaches(g, c, x) && d.status == Standing(inputs[x], now);
      ReachesUnfolds(g, c, x);
      forall y | y in inputs && Below(g, c, y)
        ensures !inputs[y].status.Refuted?
      {
        ReachesUnfolds(g, c, y);
      }
      ReachesSelf(g, c);
      assert Rank(d.status) <= Rank(Standing(inputs[c], now));
    }
  }

  /** An unresolved claim that was positive or contested comes back UNVERIFIED and pointing nowhere; any other keeps both. */
  lemma UnresolvedFields(inputs: Inputs, g: Deps, now: int, c: Id, d: StatusDecision)
    requires c in inputs && c in g && Unresolved(g, inputs.Keys, c) && Outcome(inputs, g, now, c, d)
    ensures var was := inputs[c].status;
            if was.Verified? || was.Corroborated? || was.Supported? || was.Contested? then
              d.status.Unverified? && d.direction.Neutral?
            else d.status == was && d.direction == inputs[c].direction
    ensures d.decidedAt == now && d.expiresAt == inputs[c].expiresAt && d.contested == inputs[c].contested
    ensures d.modelDerivedSupportOnly == inputs[c].modelDerivedSupportOnly && SameRecord(d, inputs[c])
  {
  }

  /** A verified leaf past its deadline: it comes back EXPIRED and pointing nowhere. */
  lemma ExpiredLeaf(v: seq<Entry>, graph: seq<PremiseNode>, out: seq<Entry>)
    requires |v| == 1 && v[0].decision.status.Verified? && v[0].decision.direction.Supports?
    requires v[0].decision.expiresAt == Some(5) && graph == [PremiseNode(v[0].decision.claimId, [])]
    requires IsResult(v, DepsOf(graph, InputsOf(v).Keys), 10, out)
    ensures |out| == 1 && out[0].decision.status.Expired? && out[0].decision.direction.Neutral?
  {
    var c := v[0].decision.claimId;
    var inputs, g := InputsOf(v), DepsOf(graph, InputsOf(v).Keys);
    assert c in inputs && inputs[c] == v[0].decision && IndexOf(v)[c] == 0;
    assert graph[..0] == [];
    assert g == map[c := []];
    forall x
      ensures Reaches(g, c, x) <==> x == c
    {
      ReachesUnfolds(g, c, x);
    }
    assert !OnCycle(g, c) && !Unresolved(g, inputs.Keys, c);
    StatusOverInputs(inputs, g, 10, c, out[0].decision);
    DirectionOverInputs(inputs, g, 10, c, out[0].decision);
  }

  /** Where a claim has several premise nodes the last one speaks, and a node without a decision is left out. */
  lemma {:induction false} LastNodeSpeaks(graph: seq<PremiseNode>, known: set<Id>, i: nat)
    requires i < |graph| && graph[i].premiseId in known
    requires forall j :: i < j < |graph| ==> graph[j].premiseId != graph[i].premiseId
    ensures graph[i].premiseId in DepsOf(graph, known)
    ensures DepsOf(graph, known)[graph[i].premiseId] == graph[i].dependsOn
  {
    var last := |graph| - 1;
    if i == last {
    } else {
      assert graph[..last][i] == graph[i];
      LastNodeSpeaks(graph[..last], known, i);
    }
  }
}
