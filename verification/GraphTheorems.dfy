/** What follows for callers of `compose_graph` from the outcome of every claim being the declarative one. */
module GraphTheorems {
  import opened Status
  import opened DependencyGraph
  import opened ClosureSpec
  import opened GraphComposition

  /** The graphs agree up to the order and repetition of declared dependencies. */
  ghost predicate SameEdges(g: Deps, h: Deps) {
    g.Keys == h.Keys && forall a, b :: Edge(g, a, b) <==> Edge(h, a, b)
  }

  lemma {:induction false} SameReachesIn(g: Deps, h: Deps, a: Id, b: Id, n: nat)
    requires SameEdges(g, h) && ReachesIn(g, a, b, n)
    ensures ReachesIn(h, a, b, n)
    decreases n
  {
    if n == 0 {
    } else {
      var m :| Edge(g, a, m) && ReachesIn(g, m, b, n - 1);
      SameReachesIn(g, h, m, b, n - 1);
      assert Edge(h, a, m);
    }
  }

  lemma SameReaches(g: Deps, h: Deps, a: Id, b: Id)
    requires SameEdges(g, h)
    ensures Reaches(g, a, b) <==> Reaches(h, a, b)
  {
    if Reaches(g, a, b) {
      var n: nat :| ReachesIn(g, a, b, n);
      SameReachesIn(g, h, a, b, n);
    }
    if Reaches(h, a, b) {
      var n: nat :| ReachesIn(h, a, b, n);
      SameReachesIn(h, g, a, b, n);
    }
  }

  lemma SameBelow(g: Deps, h: Deps, a: Id, b: Id)
    requires SameEdges(g, h)
    ensures Below(g, a, b) <==> Below(h, a, b)
  {
    if m :| Edge(g, a, m) && Reaches(g, m, b) {
      SameReaches(g, h, m, b);
      assert Edge(h, a, m);
    }
    if m :| Edge(h, a, m) && Reaches(h, m, b) {
      SameReaches(g, h, m, b);
      assert Edge(g, a, m);
    }
  }

  lemma SameClosures(inputs: Inputs, g: Deps, h: Deps, c: Id)
    requires SameEdges(g, h)
    ensures Closure(inputs, g, c) == Closure(inputs, h, c)
    ensures ClosureBelow(inputs, g, c) == ClosureBelow(inputs, h, c)
    ensures Unresolved(g, inputs.Keys, c) <==> Unresolved(h, inputs.Keys, c)
  {
    forall x
      ensures Reaches(g, c, x) <==> Reaches(h, c, x)
      ensures Below(g, c, x) <==> Below(h, c, x)
      ensures OnCycle(g, x) <==> OnCycle(h, x)
    {
      SameReaches(g, h, c, x);
      SameBelow(g, h, c, x);
      SameBelow(g, h, x, x);
    }
  }

  /** The declarative outcome leaves nothing open. */
  lemma OutcomeIsUnique(inputs: Inputs, g: Deps, h: Deps, now: int, c: Id, d: StatusDecision, e: StatusDecision)
    requires c in inputs && SameEdges(g, h)
    requires Outcome(inputs, g, now, c, d) && Outcome(inputs, h, now, c, e)
    ensures d == e
  {
    SameClosures(inputs, g, h, c);
    if c in g && !Unresolved(g, inputs.Keys, c) {
      var s := Closure(inputs, g, c);
      assert g[c] != [] ==> Edge(g, c, g[c][0]);
      assert h[c] != [] ==> Edge(h, c, h[c][0]);
    }
  }

  lemma ResultAtIsUnique(v: seq<Entry>, m: Index, g: Deps, h: Deps, now: int, out: seq<Entry>, out': seq<Entry>)
    requires IsIndex(v, m) && SameEdges(g, h) && ResultAt(v, m, g, now, out) && ResultAt(v, m, h, now, out')
    ensures out == out'
  {
    forall i | 0 <= i < |v|
      ensures out[i] == out'[i]
    {
      var c := v[i].decision.claimId;
      if m[c] == i {
        OutcomeIsUnique(InputsAt(v, m), g, h, now, c, out[i].decision, out'[i].decision);
      }
    }
  }

  /** Order and repetition of declared dependencies do not matter. */
  lemma ResultIsUnique(v: seq<Entry>, g: Deps, h: Deps, now: int, out: seq<Entry>, out': seq<Entry>)
    requires SameEdges(g, h) && IsResult(v, g, now, out) && IsResult(v, h, now, out')
    ensures out == out'
  {
    ResultAtIsUnique(v, IndexOf(v), g, h, now, out, out');
  }

  predicate DistinctNodes(graph: seq<PremiseNode>) {
    forall i, j :: 0 <= i < j < |graph| ==> graph[i].premiseId != graph[j].premiseId
  }

  lemma {:induction false} DepsOfDistinct(graph: seq<PremiseNode>, known: set<Id>)
    requires DistinctNodes(graph)
    ensures forall n :: n in graph && n.premiseId in known
              ==> n.premiseId in DepsOf(graph, known) && DepsOf(graph, known)[n.premiseId] == n.dependsOn
    ensures forall c :: c in DepsOf(graph, known) ==> exists n :: n in graph && n.premiseId == c && c in known
  {
    if graph == [] {
    } else {
      var rest, last := graph[..|graph| - 1], graph[|graph| - 1];
      DepsOfDistinct(rest, known);
      assert graph == rest + [last];
      forall c | c in DepsOf(graph, known)
        ensures exists n :: n in graph && n.premiseId == c && c in known
      {
        if c in DepsOf(rest, known) {
          var n :| n in rest && n.premiseId == c && c in known;
          assert n in graph;
        } else {
          assert last in graph;
        }
      }
    }
  }

  lemma SameNodesSameDeps(graph: seq<PremiseNode>, graph': seq<PremiseNode>, known: set<Id>)
    requires DistinctNodes(graph) && DistinctNodes(graph') && forall n :: n in graph <==> n in graph'
    ensures DepsOf(graph, known) == DepsOf(graph', known)
  {
    DepsOfDistinct(graph, known);
    DepsOfDistinct(graph', known);
  }

  /** With distinct node ids the order of the premise graph does not matter. */
  lemma NodeOrderIsIrrelevant(v: seq<Entry>, graph: seq<PremiseNode>, graph': seq<PremiseNode>, now: int,
                              out: seq<Entry>, out': seq<Entry>)
    requires DistinctNodes(graph) && DistinctNodes(graph') && forall n :: n in graph <==> n in graph'
    requires IsResult(v, DepsOf(graph, InputsOf(v).Keys), now, out)
    requires IsResult(v, DepsOf(graph', InputsOf(v).Keys), now, out')
    ensures out == out'
  {
    SameNodesSameDeps(graph, graph', InputsOf(v).Keys);
    var g := DepsOf(graph, InputsOf(v).Keys);
    ResultIsUnique(v, g, g, now, out, out');
  }

  /** Composition never raises a claim on the chain. */
  lemma OutcomeNeverRaises(inputs: Inputs, g: Deps, now: int, c: Id, d: StatusDecision)
    requires c in inputs && Outcome(inputs, g, now, c, d)
    ensures Rank(d.status) <= Rank(inputs[c].status)
  {
    if c in g && !Unresolved(g, inputs.Keys, c) {
      ReachesSelf(g, c);
      assert c in Closure(inputs, g, c);
    }
  }

  /** No claim with a premise node is handed back positive at or after a deadline in its closure. */
  lemma OutcomeIsNotStale(inputs: Inputs, g: Deps, now: int, c: Id, d: StatusDecision)
    requires c in inputs && c in g && Outcome(inputs, g, now, c, d)
    ensures IsPositive(d.status) ==>
              forall x :: x in Closure(inputs, g, c) && inputs[x].expiresAt.Some? ==> now < inputs[x].expiresAt.value
  {
    if IsPositive(d.status) {
      var s := Closure(inputs, g, c);
      SummaryIsFresh(inputs, now, s, d.status, d.expiresAt);
    }
  }

  /** A claim that leads to a missing premise or into a cycle carries no assurance upward, whatever it was. */
  lemma UnresolvedCarriesNoAssurance(inputs: Inputs, g: Deps, now: int, c: Id, d: StatusDecision)
    requires c in inputs && c in g && Unresolved(g, inputs.Keys, c) && Outcome(inputs, g, now, c, d)
    ensures d.status.Unverified? || d.status.Expired? || d.status.Refuted?
    ensures Rank(d.status) == if Rank(inputs[c].status) <= Rank(Unverified) then Rank(inputs[c].status) else Rank(Unverified)
  {
  }

  lemma ClosureIsTransitive(inputs: Inputs, g: Deps, c: Id, x: Id)
    requires x in Closure(inputs, g, c)
    ensures Closure(inputs, g, x) <= Closure(inputs, g, c)
  {
    forall y | y in Closure(inputs, g, x)
      ensures y in Closure(inputs, g, c)
    {
      ReachesTrans(g, c, x, y);
    }
  }

  /** The outputs of one pass, seen as the inputs of the next. */
  ghost predicate AllOutcome(inputs: Inputs, g: Deps, now: int, outputs: Inputs) {
    && g.Keys <= inputs.Keys == outputs.Keys
    && forall c :: c in inputs ==> Outcome(inputs, g, now, c, outputs[c])
  }

  /** Within the closure of a resolved claim, an output lies between the meet of that closure and its own input. */
  lemma OutputsInClosure(inputs: Inputs, g: Deps, now: int, outputs: Inputs, c: Id, x: Id)
    requires AllOutcome(inputs, g, now, outputs) && c in g && !Unresolved(g, inputs.Keys, c)
    requires x in Closure(inputs, g, c)
    ensures Standing(inputs, g, now, x, outputs[x])
    ensures Rank(outputs[c].status) <= Rank(Fresh(outputs, now, x)) <= Rank(Fresh(inputs, now, x))
  {
    ResolvedReachesKnown(g, inputs.Keys, c, x);
    if x in g {
      ReachesSelf(g, x);
      ClosureIsTransitive(inputs, g, c, x);
      assert x in Closure(inputs, g, x);
      var y :| y in Closure(inputs, g, x) && Fresh(inputs, now, y) == outputs[x].status;
      assert y in Closure(inputs, g, c);
    } else {
      assert Rank(outputs[c].status) <= Rank(Fresh(inputs, now, x));
    }
  }

  /** Composed already, or untouched for want of a premise node. */
  ghost predicate Standing(inputs: Inputs, g: Deps, now: int, c: Id, d: StatusDecision)
    requires c in inputs
  {
    if c in g then Composed(inputs, g, now, c, d) else d == inputs[c]
  }

  /** A conclusion is never stronger than anything it rests on. */
  lemma WeakestLink(inputs: Inputs, g: Deps, now: int, outputs: Inputs, c: Id, x: Id)
    requires AllOutcome(inputs, g, now, outputs) && c in g && !Unresolved(g, inputs.Keys, c)
    requires x in Closure(inputs, g, c)
    ensures Rank(outputs[c].status) <= Rank(outputs[x].status)
  {
    OutputsInClosure(inputs, g, now, outputs, c, x);
  }

  /** Some input that bears on `x` shows `s`: one in the closure of `x` where that is composed, and its own otherwise. */
  ghost predicate Shows(inputs: Inputs, g: Deps, now: int, x: Id, s: EvidenceStatus)
    requires x in inputs
  {
    if x in g && !Unresolved(g, inputs.Keys, x) then Has(inputs, now, Closure(inputs, g, x), s) else inputs[x].status == s
  }

  /** Where an output is refuted or expired can be read off the inputs. */
  lemma LowOutputExactly(inputs: Inputs, g: Deps, now: int, x: Id, d: StatusDecision)
    requires x in inputs && Outcome(inputs, g, now, x, d)
    ensures d.status.Refuted? <==> Shows(inputs, g, now, x, Refuted)
    ensures d.status.Expired? <==> Shows(inputs, g, now, x, Expired) && !Shows(inputs, g, now, x, Refuted)
  {
    if x in g && !Unresolved(g, inputs.Keys, x) {
    } else if x in g {
      UnresolvedCarriesNoAssurance(inputs, g, now, x, d);
    }
  }

  lemma CappedAbove(given: EvidenceStatus, capped: EvidenceStatus, s: EvidenceStatus)
    requires Rank(capped) == if Rank(given) <= Rank(Unverified) then Rank(given) else Rank(Unverified)
    ensures Rank(capped) > Rank(s)
            <==> (s.Refuted? && Rank(given) > Rank(Refuted)) || (s.Expired? && Rank(given) > Rank(Expired))
  {
  }

  /**
   A weak leaf does not drag down an unresolved ancestor further than UNVERIFIED. The ancestor ends above it exactly
   where the leaf shows a refutation and the ancestor was not refuted itself, or shows a lapse and the ancestor was
   neither refuted nor expired.
  */
  lemma UnresolvedLink(inputs: Inputs, g: Deps, now: int, outputs: Inputs, c: Id, x: Id)
    requires AllOutcome(inputs, g, now, outputs) && c in g && Unresolved(g, inputs.Keys, c)
    requires x in Closure(inputs, g, c)
    ensures Rank(outputs[c].status) > Rank(outputs[x].status)
            <==> (Shows(inputs, g, now, x, Refuted) && Rank(inputs[c].status) > Rank(Refuted))
                 || (Shows(inputs, g, now, x, Expired) && Rank(inputs[c].status) > Rank(Expired))
  {
    UnresolvedCarriesNoAssurance(inputs, g, now, c, outputs[c]);
    LowOutputExactly(inputs, g, now, x, outputs[x]);
    CappedAbove(inputs[c].status, outputs[c].status, outputs[x].status);
  }

  /** A resolved or an unresolved ancestor: the two together say exactly when a weak leaf drags an ancestor down. */
  lemma DraggedDownExactly(inputs: Inputs, g: Deps, now: int, outputs: Inputs, c: Id, x: Id)
    requires AllOutcome(inputs, g, now, outputs) && c in g && x in Closure(inputs, g, c)
    ensures Rank(outputs[c].status) <= Rank(outputs[x].status)
            <==> Unresolved(g, inputs.Keys, c) ==>
                   && (Shows(inputs, g, now, x, Refuted) ==> inputs[c].status.Refuted?)
                   && (Shows(inputs, g, now, x, Expired) ==> inputs[c].status.Refuted? || inputs[c].status.Expired?)
  {
    if Unresolved(g, inputs.Keys, c) {
      UnresolvedLink(inputs, g, now, outputs, c, x);
    } else {
      WeakestLink(inputs, g, now, outputs, c, x);
    }
  }

  /** Of a conclusion's two premises one is refuted and the other was never assessed. */
  lemma RefutedLeafUnderGap(inputs: Inputs, now: int, outputs: Inputs)
    requires inputs.Keys == {"c", "x"} && inputs["c"].status.Verified? && inputs["x"].status.Refuted?
    requires AllOutcome(inputs, map["c" := ["x", "m"]], now, outputs)
    ensures outputs["c"].status.Unverified? && outputs["x"].status.Refuted?
  {
    var g: Deps := map["c" := ["x", "m"]];
    assert Edge(g, "c", "m") && "m" !in inputs;
    EdgeReaches(g, "c", "m");
    assert Unresolved(g, inputs.Keys, "c");
    assert Outcome(inputs, g, now, "c", outputs["c"]) && Outcome(inputs, g, now, "x", outputs["x"]);
  }

  lemma MeetAgain(inputs: Inputs, g: Deps, now: int, outputs: Inputs, c: Id)
    requires AllOutcome(inputs, g, now, outputs) && c in g && !Unresolved(g, inputs.Keys, c)
    ensures IsMeet(outputs, now, Closure(inputs, g, c), outputs[c].status)
  {
    ReachesSelf(g, c);
    assert c in Closure(inputs, g, c);
    forall x | x in Closure(inputs, g, c)
      ensures Rank(outputs[c].status) <= Rank(Fresh(outputs, now, x))
    {
      OutputsInClosure(inputs, g, now, outputs, c, x);
    }
    OutputsInClosure(inputs, g, now, outputs, c, c);
    assert Fresh(outputs, now, c) == outputs[c].status;
  }

  /** A flag shown by an output of the closure is shown by some input of it. */
  lemma FlagsTraceBack(inputs: Inputs, g: Deps, now: int, outputs: Inputs, c: Id, x: Id)
    requires AllOutcome(inputs, g, now, outputs) && c in g && !Unresolved(g, inputs.Keys, c)
    requires x in Closure(inputs, g, c)
    ensures outputs[x].contested ==> ContestedIn(inputs, Closure(inputs, g, c))
    ensures outputs[x].modelDerivedSupportOnly ==> ModelDerivedIn(inputs, Closure(inputs, g, c))
  {
    OutputsInClosure(inputs, g, now, outputs, c, x);
    ClosureIsTransitive(inputs, g, c, x);
  }

  lemma FlagsAgain(inputs: Inputs, g: Deps, now: int, outputs: Inputs, c: Id)
    requires AllOutcome(inputs, g, now, outputs) && c in g && !Unresolved(g, inputs.Keys, c)
    ensures outputs[c].contested == ContestedIn(outputs, Closure(inputs, g, c))
    ensures outputs[c].modelDerivedSupportOnly == ModelDerivedIn(outputs, Closure(inputs, g, c))
  {
    ReachesSelf(g, c);
    assert c in Closure(inputs, g, c);
    forall x | x in Closure(inputs, g, c)
      ensures outputs[x].contested ==> outputs[c].contested
      ensures outputs[x].modelDerivedSupportOnly ==> outputs[c].modelDerivedSupportOnly
    {
      FlagsTraceBack(inputs, g, now, outputs, c, x);
    }
  }

  lemma DeadlineAgain(inputs: Inputs, g: Deps, now: int, outputs: Inputs, c: Id)
    requires AllOutcome(inputs, g, now, outputs) && c in g && !Unresolved(g, inputs.Keys, c)
    ensures IsDeadline(outputs, Closure(inputs, g, c), outputs[c].expiresAt)
  {
    var s, t := Closure(inputs, g, c), outputs[c].expiresAt;
    ReachesSelf(g, c);
    assert c in s;
    forall x | x in s && outputs[x].expiresAt.Some?
      ensures t.Some? && t.value <= outputs[x].expiresAt.value
    {
      OutputsInClosure(inputs, g, now, outputs, c, x);
      ClosureIsTransitive(inputs, g, c, x);
    }
  }

  lemma BelowIsInside(inputs: Inputs, g: Deps, c: Id, x: Id)
    requires x in ClosureBelow(inputs, g, c)
    ensures x in Closure(inputs, g, c) && Closure(inputs, g, x) <= ClosureBelow(inputs, g, c)
  {
    ReachesUnfolds(g, c, x);
    var d :| Edge(g, c, d) && Reaches(g, d, x);
    forall y | y in Closure(inputs, g, x)
      ensures y in ClosureBelow(inputs, g, c)
    {
      ReachesTrans(g, d, x, y);
    }
  }

  /** What an output below `c` shows, some input below `c` showed; and no output below ranks above its input. */
  lemma OutputsBelow(inputs: Inputs, g: Deps, now: int, outputs: Inputs, c: Id, x: Id)
    requires AllOutcome(inputs, g, now, outputs) && c in g && !Unresolved(g, inputs.Keys, c)
    requires x in ClosureBelow(inputs, g, c)
    ensures Has(inputs, now, ClosureBelow(inputs, g, c), Fresh(outputs, now, x))
    ensures Rank(Fresh(outputs, now, x)) <= Rank(Fresh(inputs, now, x))
  {
    BelowIsInside(inputs, g, c, x);
    OutputsInClosure(inputs, g, now, outputs, c, x);
  }

  /** Whatever an output below `c` shows, some input below `c` shows. */
  lemma ShownBelowBefore(inputs: Inputs, g: Deps, now: int, outputs: Inputs, c: Id, s: EvidenceStatus)
    requires AllOutcome(inputs, g, now, outputs) && c in g && !Unresolved(g, inputs.Keys, c)
    requires Has(outputs, now, ClosureBelow(inputs, g, c), s)
    ensures Has(inputs, now, ClosureBelow(inputs, g, c), s)
  {
    var x :| x in ClosureBelow(inputs, g, c) && Fresh(outputs, now, x) == s;
    OutputsBelow(inputs, g, now, outputs, c, x);
  }

  /** A refutation, or with none a lapse, below `c` is still there in the outputs. */
  lemma ShownBelowAfter(inputs: Inputs, g: Deps, now: int, outputs: Inputs, c: Id, s: EvidenceStatus)
    requires AllOutcome(inputs, g, now, outputs) && c in g && !Unresolved(g, inputs.Keys, c)
    requires Has(inputs, now, ClosureBelow(inputs, g, c), s)
    requires s.Refuted? || (s.Expired? && !Has(inputs, now, ClosureBelow(inputs, g, c), Refuted))
    ensures Has(outputs, now, ClosureBelow(inputs, g, c), s)
  {
    var below := ClosureBelow(inputs, g, c);
    var x :| x in below && Fresh(inputs, now, x) == s;
    OutputsBelow(inputs, g, now, outputs, c, x);
    LowRank(Fresh(outputs, now, x), s);
  }

  lemma LowRank(f: EvidenceStatus, s: EvidenceStatus)
    requires Rank(f) <= Rank(s) && (s.Refuted? || s.Expired?)
    ensures f == s || f.Refuted?
  {
  }

  /** The outputs below `c` hold a refutation, or with none a lapse, exactly when the inputs below it do. */
  lemma SameBelowShown(inputs: Inputs, g: Deps, now: int, outputs: Inputs, c: Id)
    requires AllOutcome(inputs, g, now, outputs) && c in g && !Unresolved(g, inputs.Keys, c)
    ensures var below := ClosureBelow(inputs, g, c);
            && (Has(outputs, now, below, Refuted) <==> Has(inputs, now, below, Refuted))
            && (!Has(inputs, now, below, Refuted) ==>
                  (Has(outputs, now, below, Expired) <==> Has(inputs, now, below, Expired)))
  {
    var below := ClosureBelow(inputs, g, c);
    forall s | Has(outputs, now, below, s)
      ensures Has(inputs, now, below, s)
    {
      ShownBelowBefore(inputs, g, now, outputs, c, s);
    }
    if Has(inputs, now, below, Refuted) {
      ShownBelowAfter(inputs, g, now, outputs, c, Refuted);
    } else if Has(inputs, now, below, Expired) {
      ShownBelowAfter(inputs, g, now, outputs, c, Expired);
    }
  }

  lemma DirectionAgain(inputs: Inputs, g: Deps, now: int, outputs: Inputs, c: Id)
    requires AllOutcome(inputs, g, now, outputs) && c in g && !Unresolved(g, inputs.Keys, c)
    ensures DirectionFor(outputs, now, c, ClosureBelow(inputs, g, c)) == outputs[c].direction
  {
    var below := ClosureBelow(inputs, g, c);
    SameBelowShown(inputs, g, now, outputs, c);
    if !Has(inputs, now, below, Refuted) {
      ClosureUnfolds(inputs, g, c);
      OnlyTopRefutes(inputs, now, c, below, outputs[c].status);
    }
  }

  lemma OnlyTopRefutes(inputs: Inputs, now: int, c: Id, below: set<Id>, s: EvidenceStatus)
    requires c in inputs && below <= inputs.Keys && IsMeet(inputs, now, {c} + below, s)
    requires !Has(inputs, now, below, Refuted)
    ensures s.Refuted? <==> Fresh(inputs, now, c).Refuted?
  {
    assert Rank(s) <= Rank(Fresh(inputs, now, c));
    var y :| y in {c} + below && Fresh(inputs, now, y) == s;
  }

  /** A second pass changes nothing. */
  lemma OutcomeAgain(inputs: Inputs, g: Deps, now: int, outputs: Inputs, c: Id)
    requires AllOutcome(inputs, g, now, outputs) && c in inputs
    ensures Outcome(outputs, g, now, c, outputs[c])
  {
    if c in g && !Unresolved(g, inputs.Keys, c) {
      assert Closure(outputs, g, c) == Closure(inputs, g, c);
      assert ClosureBelow(outputs, g, c) == ClosureBelow(inputs, g, c);
      MeetAgain(inputs, g, now, outputs, c);
      FlagsAgain(inputs, g, now, outputs, c);
      DeadlineAgain(inputs, g, now, outputs, c);
      DirectionAgain(inputs, g, now, outputs, c);
    }
  }

  lemma OutcomeKeepsId(inputs: Inputs, g: Deps, now: int, c: Id, d: StatusDecision)
    requires c in inputs && Outcome(inputs, g, now, c, d)
    ensures d.claimId == inputs[c].claimId
  {
  }

  lemma ResultKeepsIndex(v: seq<Entry>, m: Index, g: Deps, now: int, out: seq<Entry>)
    requires IsIndex(v, m) && ResultAt(v, m, g, now, out)
    ensures IsIndex(out, m) && SamePlaces(v, m, out)
  {
    forall i | 0 <= i < |v|
      ensures out[i].decision.claimId == v[i].decision.claimId
    {
      var c := v[i].decision.claimId;
      if m[c] == i {
        OutcomeKeepsId(InputsAt(v, m), g, now, c, out[i].decision);
      }
    }
    KeptIdsKeepIndex(v, m, out);
  }

  lemma KeptIdsKeepIndex(v: seq<Entry>, m: Index, out: seq<Entry>)
    requires IsIndex(v, m) && |out| == |v|
    requires forall i :: 0 <= i < |v| ==> out[i].decision.claimId == v[i].decision.claimId
    ensures IsIndex(out, m)
  {
  }

  lemma IndexIsUnique(v: seq<Entry>, m: Index, n: Index)
    requires IsIndex(v, m) && IsIndex(v, n)
    ensures m == n
  {
    forall c | c in m
      ensures c in n && m[c] <= n[c]
    {
      assert v[m[c]].decision.claimId == c;
    }
    forall c | c in n
      ensures c in m && n[c] <= m[c]
    {
      assert v[n[c]].decision.claimId == c;
    }
  }

  /** The entries that speak for claims carry the outcomes, so the facts about outcomes hold of any result. */
  lemma ResultGivesOutcomes(v: seq<Entry>, m: Index, g: Deps, now: int, out: seq<Entry>)
    requires IsIndex(v, m) && ResultAt(v, m, g, now, out) && g.Keys <= m.Keys
    ensures AllOutcome(InputsAt(v, m), g, now, InputsAt(out, m))
  {
    forall c | c in m
      ensures Outcome(InputsAt(v, m), g, now, c, InputsAt(out, m)[c])
    {
      assert v[m[c]].decision.claimId == c;
    }
  }

  lemma ResultAtAgain(v: seq<Entry>, m: Index, g: Deps, now: int, out: seq<Entry>)
    requires IsIndex(v, m) && ResultAt(v, m, g, now, out) && g.Keys <= m.Keys
    ensures IsIndex(out, m) && ResultAt(out, m, g, now, out)
  {
    ResultKeepsIndex(v, m, g, now, out);
    ResultGivesOutcomes(v, m, g, now, out);
    var inputs, outputs := InputsAt(v, m), InputsAt(out, m);
    forall i | 0 <= i < |out| && m[out[i].decision.claimId] == i
      ensures Outcome(outputs, g, now, out[i].decision.claimId, out[i].decision)
    {
      var c := out[i].decision.claimId;
      assert outputs[c] == out[i].decision;
      OutcomeAgain(inputs, g, now, outputs, c);
    }
  }

  /** Composing a composed graph again changes no field of any entry. */
  lemma CompositionIsIdempotent(v: seq<Entry>, graph: seq<PremiseNode>, now: int, out: seq<Entry>, again: seq<Entry>)
    requires IsResult(v, DepsOf(graph, InputsOf(v).Keys), now, out)
    requires IsResult(out, DepsOf(graph, InputsOf(out).Keys), now, again)
    ensures again == out
  {
    var m, g := IndexOf(v), DepsOf(graph, InputsOf(v).Keys);
    ResultAtAgain(v, m, g, now, out);
    IndexIsUnique(out, m, IndexOf(out));
    ResultAtIsUnique(out, m, g, g, now, again, out);
  }
}
