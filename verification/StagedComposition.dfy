/**
 Composing in stages: what `compose_graph` of glass_ionomer/verify/identity.py makes of its own earlier output
 at a later time, against what it makes of the original decisions at that time.
*/
module StagedComposition {
  import opened Status
  import opened DependencyGraph
  import opened ClosureSpec
  import opened GraphTheorems

  /** `y` is positive at `now` and has expired by `later`. */
  predicate Lapses(inputs: Inputs, now: int, later: int, y: Id)
    requires y in inputs
  {
    IsPositive(Fresh(inputs, now, y)) && Fresh(inputs, later, y).Expired?
  }

  /** Something in the closure of `y` keeps its composition from being positive, short of refuting or expiring it. */
  ghost predicate Masked(inputs: Inputs, g: Deps, now: int, y: Id) {
    exists z :: z in Closure(inputs, g, y) && (Fresh(inputs, now, z).Contested? || Fresh(inputs, now, z).Unverified?)
  }

  ghost predicate SomeLapse(inputs: Inputs, now: int, later: int, s: set<Id>)
    requires s <= inputs.Keys
  {
    exists y :: y in s && Lapses(inputs, now, later, y)
  }

  ghost predicate LapsesMasked(inputs: Inputs, g: Deps, now: int, later: int, s: set<Id>)
    requires s <= inputs.Keys
  {
    forall y :: y in s && Lapses(inputs, now, later, y) ==> Masked(inputs, g, now, y)
  }

  /** A lapse between the two times is lost: each is masked, and nothing was refuted or expired at the first. */
  ghost predicate LapseLost(inputs: Inputs, g: Deps, now: int, later: int, s: set<Id>)
    requires s <= inputs.Keys
  {
    && SomeLapse(inputs, now, later, s) && LapsesMasked(inputs, g, now, later, s)
    && !Has(inputs, now, s, Refuted) && !Has(inputs, now, s, Expired)
  }

  lemma FreshFalls(inputs: Inputs, now: int, later: int, x: Id)
    requires x in inputs && now <= later
    ensures Fresh(inputs, later, x) == Fresh(inputs, now, x) || Lapses(inputs, now, later, x)
    ensures Rank(Fresh(inputs, later, x)) <= Rank(Fresh(inputs, now, x))
    ensures Lapses(inputs, now, later, x)
            <==> IsPositive(Fresh(inputs, now, x)) && inputs[x].expiresAt.Some? && inputs[x].expiresAt.value <= later
  {
  }

  /** `outputs` shows at `x` a summary of the closure of `x`, which lies in `s`. */
  ghost predicate SummedAt(inputs: Inputs, g: Deps, now: int, outputs: Inputs, s: set<Id>, x: Id) {
    && x in outputs && x in Closure(inputs, g, x) && Closure(inputs, g, x) <= s
    && Summarises(inputs, now, Closure(inputs, g, x), outputs[x])
  }

  /** It does so all over `s`. The trigger keeps the verifier from opening every summary at once. */
  ghost predicate Summed(inputs: Inputs, g: Deps, now: int, outputs: Inputs, s: set<Id>) {
    && s <= inputs.Keys && s <= outputs.Keys
    && forall x {:trigger SummedAt(inputs, g, now, outputs, s, x)} :: x in s ==> SummedAt(inputs, g, now, outputs, s, x)
  }

  /** Every output within a resolved closure summarises its own closure, composed or not. */
  lemma OutputsAreSummed(inputs: Inputs, g: Deps, now: int, outputs: Inputs, c: Id)
    requires AllOutcome(inputs, g, now, outputs) && c in g && !Unresolved(g, inputs.Keys, c)
    ensures c in Closure(inputs, g, c) && Summed(inputs, g, now, outputs, Closure(inputs, g, c))
  {
    ReachesSelf(g, c);
    forall x | x in Closure(inputs, g, c)
      ensures SummedAt(inputs, g, now, outputs, Closure(inputs, g, c), x)
    {
      OutputsInClosure(inputs, g, now, outputs, c, x);
      ReachesSelf(g, x);
      ClosureIsTransitive(inputs, g, c, x);
      if x !in g {
        LoneClosure(inputs, g, now, x);
      }
    }
  }

  /** A summary that has lapsed later holds a decision that has. */
  lemma LapseTracesBack(inputs: Inputs, now: int, later: int, outputs: Inputs, s: set<Id>, x: Id) returns (y: Id)
    requires s <= inputs.Keys && x in outputs && now <= later
    requires Summarises(inputs, now, s, outputs[x]) && Lapses(outputs, now, later, x)
    ensures y in s && Lapses(inputs, now, later, y)
  {
    y :| y in s && inputs[y].expiresAt == outputs[x].expiresAt;
    assert Rank(Fresh(outputs, now, x)) <= Rank(Fresh(inputs, now, y));
    FreshFalls(outputs, now, later, x);
    FreshFalls(inputs, now, later, y);
  }

  /** What an output shows later, something in its closure shows later or falls below. */
  lemma ShownLater(inputs: Inputs, now: int, later: int, outputs: Inputs, s: set<Id>, x: Id) returns (y: Id)
    requires s <= inputs.Keys && x in outputs && now <= later && Summarises(inputs, now, s, outputs[x])
    ensures y in s && Rank(Fresh(inputs, later, y)) <= Rank(Fresh(outputs, later, x))
  {
    FreshFalls(outputs, now, later, x);
    if Lapses(outputs, now, later, x) {
      y := LapseTracesBack(inputs, now, later, outputs, s, x);
    } else {
      y :| y in s && Fresh(inputs, now, y) == Fresh(outputs, now, x);
      FreshFalls(inputs, now, later, y);
    }
  }

  /** What there is to compare: a closure, its outputs, and the status composed anew and in stages. */
  ghost predicate Compared(inputs: Inputs, g: Deps, now: int, later: int, outputs: Inputs, s: set<Id>,
                           anew: EvidenceStatus, staged: EvidenceStatus)
  {
    now <= later && Summed(inputs, g, now, outputs, s) && IsMeet(inputs, later, s, anew) && IsMeet(outputs, later, s, staged)
  }

  lemma NeverBelowAnew(inputs: Inputs, g: Deps, now: int, later: int, outputs: Inputs, s: set<Id>,
                       anew: EvidenceStatus, staged: EvidenceStatus)
    requires Compared(inputs, g, now, later, outputs, s, anew, staged)
    ensures Rank(anew) <= Rank(staged)
  {
    var x :| x in s && Fresh(outputs, later, x) == staged;
    assert SummedAt(inputs, g, now, outputs, s, x);
    var y := ShownLater(inputs, now, later, outputs, Closure(inputs, g, x), x);
  }

  /** Staging never shows more than any decision of the closure did at first. */
  lemma StagedBelowInput(inputs: Inputs, g: Deps, now: int, later: int, outputs: Inputs, s: set<Id>, staged: EvidenceStatus, y: Id)
    requires now <= later && Summed(inputs, g, now, outputs, s) && IsMeet(outputs, later, s, staged) && y in s
    ensures Rank(staged) <= Rank(Fresh(inputs, now, y))
  {
    assert SummedAt(inputs, g, now, outputs, s, y);
    FreshFalls(outputs, now, later, y);
  }

  /** A masked lapse does not show in any output. */
  lemma MaskedDoesNotShow(inputs: Inputs, g: Deps, now: int, later: int, outputs: Inputs, s: set<Id>, x: Id)
    requires now <= later && Summed(inputs, g, now, outputs, s)
    requires x in s && LapsesMasked(inputs, g, now, later, s)
    ensures Fresh(outputs, later, x) == Fresh(outputs, now, x)
  {
    assert SummedAt(inputs, g, now, outputs, s, x);
    FreshFalls(outputs, now, later, x);
    if Lapses(outputs, now, later, x) {
      var y := LapseTracesBack(inputs, now, later, outputs, Closure(inputs, g, x), x);
      assert Masked(inputs, g, now, y);
      var z :| z in Closure(inputs, g, y) && (Fresh(inputs, now, z).Contested? || Fresh(inputs, now, z).Unverified?);
      ClosureIsTransitive(inputs, g, x, y);
    }
  }

  lemma LostLapseDiffers(inputs: Inputs, g: Deps, now: int, later: int, outputs: Inputs, s: set<Id>,
                         anew: EvidenceStatus, staged: EvidenceStatus)
    requires Compared(inputs, g, now, later, outputs, s, anew, staged) && LapseLost(inputs, g, now, later, s)
    ensures anew != staged
  {
    var y :| y in s && Lapses(inputs, now, later, y);
    assert Rank(anew) <= Rank(Fresh(inputs, later, y));
    var x :| x in s && Fresh(outputs, later, x) == staged;
    MaskedDoesNotShow(inputs, g, now, later, outputs, s, x);
    assert SummedAt(inputs, g, now, outputs, s, x);
    var z :| z in Closure(inputs, g, x) && Fresh(inputs, now, z) == Fresh(outputs, now, x);
    NothingLow(inputs, now, s, z);
  }

  lemma NothingLow(inputs: Inputs, now: int, s: set<Id>, z: Id)
    requires s <= inputs.Keys && z in s && !Has(inputs, now, s, Refuted) && !Has(inputs, now, s, Expired)
    ensures Rank(Fresh(inputs, now, z)) > Rank(Expired)
  {
  }

  /** A lapse that nothing masks shows in the output of the claim that lapses. */
  lemma BareLapseShows(inputs: Inputs, g: Deps, now: int, later: int, outputs: Inputs, s: set<Id>, y: Id)
    requires now <= later && Summed(inputs, g, now, outputs, s)
    requires y in s && Lapses(inputs, now, later, y) && !Masked(inputs, g, now, y)
    ensures Rank(Fresh(outputs, later, y)) <= Rank(Expired)
  {
    assert SummedAt(inputs, g, now, outputs, s, y);
    var z :| z in Closure(inputs, g, y) && Fresh(inputs, now, z) == Fresh(outputs, now, y);
    assert !Fresh(inputs, now, z).Contested? && !Fresh(inputs, now, z).Unverified?;
    FreshFalls(inputs, now, later, y);
    FreshFalls(outputs, now, later, y);
  }

  /** Where staging shows a refutation or a lapse, so does composing anew. */
  lemma LowStagedAgrees(inputs: Inputs, g: Deps, now: int, later: int, outputs: Inputs, s: set<Id>,
                        anew: EvidenceStatus, staged: EvidenceStatus)
    requires Compared(inputs, g, now, later, outputs, s, anew, staged) && Rank(staged) <= Rank(Expired)
    ensures anew == staged
  {
    NeverBelowAnew(inputs, g, now, later, outputs, s, anew, staged);
    if anew.Refuted? {
      var y :| y in s && Fresh(inputs, now, y) == Refuted;
      StagedBelowInput(inputs, g, now, later, outputs, s, staged, y);
    }
  }

  lemma NoLapseAgrees(inputs: Inputs, g: Deps, now: int, later: int, outputs: Inputs, s: set<Id>,
                      anew: EvidenceStatus, staged: EvidenceStatus)
    requires Compared(inputs, g, now, later, outputs, s, anew, staged) && !SomeLapse(inputs, now, later, s)
    ensures anew == staged
  {
    NeverBelowAnew(inputs, g, now, later, outputs, s, anew, staged);
    var y :| y in s && Fresh(inputs, later, y) == anew;
    FreshFalls(inputs, now, later, y);
    StagedBelowInput(inputs, g, now, later, outputs, s, staged, y);
  }

  /** Staged composition and composition anew part exactly where a lapse is lost. */
  lemma PartExactly(inputs: Inputs, g: Deps, now: int, later: int, outputs: Inputs, s: set<Id>,
                    anew: EvidenceStatus, staged: EvidenceStatus)
    requires Compared(inputs, g, now, later, outputs, s, anew, staged)
    ensures anew != staged <==> LapseLost(inputs, g, now, later, s)
  {
    if LapseLost(inputs, g, now, later, s) {
      LostLapseDiffers(inputs, g, now, later, outputs, s, anew, staged);
    } else if !SomeLapse(inputs, now, later, s) {
      NoLapseAgrees(inputs, g, now, later, outputs, s, anew, staged);
    } else {
      var y := LowWitness(inputs, g, now, later, outputs, s, staged);
      LowStagedAgrees(inputs, g, now, later, outputs, s, anew, staged);
    }
  }

  /** A lapse that is not lost keeps staging at EXPIRED or below. */
  lemma LowWitness(inputs: Inputs, g: Deps, now: int, later: int, outputs: Inputs, s: set<Id>, staged: EvidenceStatus)
    returns (y: Id)
    requires now <= later && Summed(inputs, g, now, outputs, s) && IsMeet(outputs, later, s, staged)
    requires SomeLapse(inputs, now, later, s) && !LapseLost(inputs, g, now, later, s)
    ensures y in s && Rank(staged) <= Rank(Expired)
  {
    if !LapsesMasked(inputs, g, now, later, s) {
      y :| y in s && Lapses(inputs, now, later, y) && !Masked(inputs, g, now, y);
      BareLapseShows(inputs, g, now, later, outputs, s, y);
    } else {
      var low := if Has(inputs, now, s, Refuted) then Refuted else Expired;
      y :| y in s && Fresh(inputs, now, y) == low;
      StagedBelowInput(inputs, g, now, later, outputs, s, staged, y);
    }
  }

  /**
   Recomposing an earlier result at a later time never understates what composing anew would give, and
   overstates it exactly for resolved claims over whose closure a lapse is lost.
  */
  lemma StagedAgainstAnew(inputs: Inputs, g: Deps, now: int, later: int, outputs: Inputs, c: Id,
                          anew: StatusDecision, staged: StatusDecision)
    requires now <= later && AllOutcome(inputs, g, now, outputs) && c in inputs
    requires Outcome(inputs, g, later, c, anew) && Outcome(outputs, g, later, c, staged)
    ensures Rank(anew.status) <= Rank(staged.status)
    ensures anew.status != staged.status
            <==> c in g && !Unresolved(g, inputs.Keys, c) && LapseLost(inputs, g, now, later, Closure(inputs, g, c))
  {
    if c in g && !Unresolved(g, inputs.Keys, c) {
      var s := Closure(inputs, g, c);
      assert Closure(outputs, g, c) == s;
      OutputsAreSummed(inputs, g, now, outputs, c);
      NeverBelowAnew(inputs, g, now, later, outputs, s, anew.status, staged.status);
      PartExactly(inputs, g, now, later, outputs, s, anew.status, staged.status);
    } else {
      UnresolvedStaged(inputs, g, now, later, outputs, c, anew, staged);
    }
  }

  lemma UnresolvedStaged(inputs: Inputs, g: Deps, now: int, later: int, outputs: Inputs, c: Id,
                         anew: StatusDecision, staged: StatusDecision)
    requires AllOutcome(inputs, g, now, outputs) && c in inputs && (c !in g || Unresolved(g, inputs.Keys, c))
    requires Outcome(inputs, g, later, c, anew) && Outcome(outputs, g, later, c, staged)
    ensures anew == staged
  {
    assert Outcome(inputs, g, now, c, outputs[c]);
  }

  /**
   A verified conclusion that lapses between two times, over a contested premise: composed at the first, its
   lapse no longer shows at the second, as it would if it were composed then.
  */
  lemma StagingOverstates(x: StatusDecision, y: StatusDecision, now: int, later: int, first: StatusDecision)
    requires x.status.Verified? && x.expiresAt.Some? && now < x.expiresAt.value <= later && y.status.Contested?
    requires first == Compose(x, [y], now)
    ensures Compose(first, [y], later).status.Contested? && Compose(x, [y], later).status.Expired?
  {
    OverContested(x, y, now);
    OverContested(first, y, later);
    OverContested(x, y, later);
  }

  /** Over one contested premise a conclusion that has expired is EXPIRED, and any other that is not lower is CONTESTED. */
  lemma OverContested(c: StatusDecision, p: StatusDecision, now: int)
    requires p.status.Contested? && Rank(c.status) >= Rank(Contested)
    ensures Compose(c, [p], now).status == if IsExpired(c, now) then Expired else Contested
  {
    var s := Compose(c, [p], now).status;
    ComposeIsChainMinimum(c, [p], now);
    assert p in [p];
  }
}
