/**
 What composing a dependency graph should mean, without worklists: each decision is a summary of the
 input decisions over the dependency closure of its claim.
*/
module ClosureSpec {
  import opened Wrappers
  import opened Status
  import opened DependencyGraph

  /** The decision that stands for each claim id before composition. */
  type Inputs = map<Id, StatusDecision>

  /** The assessed claims in the reflexive-transitive dependency closure of `c`. */
  ghost function Closure(inputs: Inputs, g: Deps, c: Id): (s: set<Id>)
    ensures s <= inputs.Keys
  {
    set x | x in inputs && Reaches(g, c, x)
  }

  /** The assessed claims that `c` depends on, directly or not. */
  ghost function ClosureBelow(inputs: Inputs, g: Deps, c: Id): (s: set<Id>)
    ensures s <= inputs.Keys
  {
    set x | x in inputs && Below(g, c, x)
  }

  function Fresh(inputs: Inputs, now: int, x: Id): EvidenceStatus
    requires x in inputs
  {
    Refresh(inputs[x], now).status
  }

  ghost predicate IsLowerBound(inputs: Inputs, now: int, s: set<Id>, status: EvidenceStatus)
    requires s <= inputs.Keys
  {
    forall x :: x in s ==> Rank(status) <= Rank(Fresh(inputs, now, x))
  }

  ghost predicate Has(inputs: Inputs, now: int, s: set<Id>, status: EvidenceStatus)
    requires s <= inputs.Keys
  {
    exists x :: x in s && Fresh(inputs, now, x) == status
  }

  /** `status` is the minimum, on the seven-status chain, of the refreshed statuses of `s`. */
  ghost predicate IsMeet(inputs: Inputs, now: int, s: set<Id>, status: EvidenceStatus)
    requires s <= inputs.Keys
  {
    IsLowerBound(inputs, now, s, status) && Has(inputs, now, s, status)
  }

  ghost predicate ContestedIn(inputs: Inputs, s: set<Id>)
    requires s <= inputs.Keys
  {
    exists x :: x in s && inputs[x].contested
  }

  ghost predicate ModelDerivedIn(inputs: Inputs, s: set<Id>)
    requires s <= inputs.Keys
  {
    exists x :: x in s && inputs[x].modelDerivedSupportOnly
  }

  ghost predicate NoLaterThan(inputs: Inputs, s: set<Id>, t: Option<int>)
    requires s <= inputs.Keys
  {
    forall x :: x in s && inputs[x].expiresAt.Some? ==> t.Some? && t.value <= inputs[x].expiresAt.value
  }

  ghost predicate HasDeadline(inputs: Inputs, s: set<Id>, t: Option<int>)
    requires s <= inputs.Keys
  {
    exists x :: x in s && inputs[x].expiresAt == t
  }

  /** `t` is the earliest deadline in `s`, or none where there is no deadline. */
  ghost predicate IsDeadline(inputs: Inputs, s: set<Id>, t: Option<int>)
    requires s <= inputs.Keys
  {
    NoLaterThan(inputs, s, t) && (t.Some? ==> HasDeadline(inputs, s, t))
  }

  ghost predicate Summarises(inputs: Inputs, now: int, s: set<Id>, d: StatusDecision)
    requires s <= inputs.Keys
  {
    && IsMeet(inputs, now, s, Refresh(d, now).status)
    && d.contested == ContestedIn(inputs, s)
    && d.modelDerivedSupportOnly == ModelDerivedIn(inputs, s)
    && IsDeadline(inputs, s, d.expiresAt)
  }

  /** A decision points the way of its refreshed input, unless a refuted or lapsed premise settles it. */
  ghost function DirectionFor(inputs: Inputs, now: int, c: Id, below: set<Id>): Direction
    requires c in inputs && below <= inputs.Keys
  {
    if Has(inputs, now, below, Refuted) then Refutes
    else if Has(inputs, now, below, Expired) && !Fresh(inputs, now, c).Refuted? then Neutral
    else Refresh(inputs[c], now).direction
  }

  /** `d` is what composition makes of a claim whose closure holds no missing id and no cycle. */
  ghost predicate Composed(inputs: Inputs, g: Deps, now: int, c: Id, d: StatusDecision)
    requires c in g && c in inputs
  {
    && Summarises(inputs, now, Closure(inputs, g, c), d)
    && Refresh(d, now) == d
    && d == inputs[c].(
         status := d.status,
         direction := DirectionFor(inputs, now, c, ClosureBelow(inputs, g, c)),
         contested := d.contested,
         modelDerivedSupportOnly := d.modelDerivedSupportOnly,
         expiresAt := d.expiresAt,
         decidedAt := if g[c] == [] then inputs[c].decidedAt else now)
  }

  function Downgrade(d: StatusDecision, now: int): StatusDecision {
    if d.status.Verified? || d.status.Corroborated? || d.status.Supported? || d.status.Contested? then
      d.(status := Unverified, direction := Neutral, decidedAt := now)
    else
      d.(decidedAt := now)
  }

  /** The final decision of each claim. */
  ghost predicate Outcome(inputs: Inputs, g: Deps, now: int, c: Id, d: StatusDecision)
    requires c in inputs
  {
    if c !in g then d == inputs[c]
    else if Unresolved(g, inputs.Keys, c) then d == Downgrade(inputs[c], now)
    else Composed(inputs, g, now, c, d)
  }

  ghost predicate Inside(parts: seq<set<Id>>, whole: set<Id>) {
    forall j :: 0 <= j < |parts| ==> parts[j] <= whole
  }

  ghost predicate Covered(parts: seq<set<Id>>, x: Id) {
    exists j :: 0 <= j < |parts| && x in parts[j]
  }

  /** The trigger keeps the verifier from chasing part after part. */
  ghost predicate Covers(parts: seq<set<Id>>, whole: set<Id>) {
    forall x {:trigger Covered(parts, x)} :: x in whole ==> Covered(parts, x)
  }

  ghost predicate IsUnion(whole: set<Id>, parts: seq<set<Id>>) {
    Inside(parts, whole) && Covers(parts, whole)
  }

  lemma BoundOfParts(inputs: Inputs, now: int, whole: set<Id>, parts: seq<set<Id>>,
                     ss: seq<EvidenceStatus>, s: EvidenceStatus)
    requires whole <= inputs.Keys && |parts| == |ss| && Covers(parts, whole)
    requires forall j :: 0 <= j < |ss| ==> parts[j] <= inputs.Keys && IsLowerBound(inputs, now, parts[j], ss[j])
    requires forall j :: 0 <= j < |ss| ==> Rank(s) <= Rank(ss[j])
    ensures IsLowerBound(inputs, now, whole, s)
  {
    forall x | x in whole
      ensures Rank(s) <= Rank(Fresh(inputs, now, x))
    {
      assert Covered(parts, x);
      var j :| 0 <= j < |parts| && x in parts[j];
      assert IsLowerBound(inputs, now, parts[j], ss[j]) && Rank(s) <= Rank(ss[j]);
    }
  }

  ghost predicate PartsMeet(inputs: Inputs, now: int, below: set<Id>, parts: seq<set<Id>>, ps: seq<StatusDecision>)
    requires below <= inputs.Keys && |parts| == |ps| && Inside(parts, below)
  {
    forall j :: 0 <= j < |ps| ==> IsMeet(inputs, now, parts[j], Refresh(ps[j], now).status)
  }

  /** A status below every premise bounds the closure below. */
  lemma PremisesBound(inputs: Inputs, now: int, below: set<Id>, parts: seq<set<Id>>, ps: seq<StatusDecision>, s: EvidenceStatus)
    requires below <= inputs.Keys && |parts| == |ps| && IsUnion(below, parts)
    requires PartsMeet(inputs, now, below, parts, ps)
    requires forall p :: p in ps ==> Rank(s) <= Rank(Refresh(p, now).status)
    ensures IsLowerBound(inputs, now, below, s)
  {
    var ss := seq(|ps|, j requires 0 <= j < |ps| => Refresh(ps[j], now).status);
    BoundOfParts(inputs, now, below, parts, ss, s);
  }

  lemma ComposeMeets(inputs: Inputs, now: int, c: Id, below: set<Id>, parts: seq<set<Id>>, ps: seq<StatusDecision>)
    requires c in inputs && below <= inputs.Keys && |parts| == |ps| && IsUnion(below, parts)
    requires PartsMeet(inputs, now, below, parts, ps)
    ensures IsMeet(inputs, now, {c} + below, Compose(inputs[c], ps, now).status)
  {
    ComposeIsChainMinimum(inputs[c], ps, now);
    var s := Compose(inputs[c], ps, now).status;
    PremisesBound(inputs, now, below, parts, ps, s);
    if s != Fresh(inputs, now, c) {
      var p :| p in ps && s == Refresh(p, now).status;
    }
  }

  lemma ComposeContests(inputs: Inputs, now: int, c: Id, below: set<Id>, parts: seq<set<Id>>, ps: seq<StatusDecision>)
    requires c in inputs && below <= inputs.Keys && |parts| == |ps| && IsUnion(below, parts)
    requires forall j :: 0 <= j < |ps| ==> ps[j].contested == ContestedIn(inputs, parts[j])
    ensures Compose(inputs[c], ps, now).contested == ContestedIn(inputs, {c} + below)
  {
    ComposeJoinsFlags(inputs[c], ps, now);
    if p :| p in ps && p.contested {
      var j :| 0 <= j < |ps| && ps[j] == p;
      var x :| x in parts[j] && inputs[x].contested;
    }
    if x :| x in below && inputs[x].contested {
      assert Covered(parts, x);
      var j :| 0 <= j < |parts| && x in parts[j];
      assert ps[j] in ps && ps[j].contested;
    }
  }

  lemma ComposeIsModelDerived(inputs: Inputs, now: int, c: Id, below: set<Id>, parts: seq<set<Id>>, ps: seq<StatusDecision>)
    requires c in inputs && below <= inputs.Keys && |parts| == |ps| && IsUnion(below, parts)
    requires forall j :: 0 <= j < |ps| ==> ps[j].modelDerivedSupportOnly == ModelDerivedIn(inputs, parts[j])
    ensures Compose(inputs[c], ps, now).modelDerivedSupportOnly == ModelDerivedIn(inputs, {c} + below)
  {
    ComposeJoinsFlags(inputs[c], ps, now);
    if p :| p in ps && p.modelDerivedSupportOnly {
      var j :| 0 <= j < |ps| && ps[j] == p;
      var x :| x in parts[j] && inputs[x].modelDerivedSupportOnly;
    }
    if x :| x in below && inputs[x].modelDerivedSupportOnly {
      assert Covered(parts, x);
      var j :| 0 <= j < |parts| && x in parts[j];
      assert ps[j] in ps && ps[j].modelDerivedSupportOnly;
    }
  }

  lemma DeadlineOfParts(inputs: Inputs, below: set<Id>, parts: seq<set<Id>>, ps: seq<StatusDecision>, t: Option<int>)
    requires below <= inputs.Keys && |parts| == |ps| && IsUnion(below, parts)
    requires forall j :: 0 <= j < |ps| ==> NoLaterThan(inputs, parts[j], ps[j].expiresAt)
    requires forall p :: p in ps && p.expiresAt.Some? ==> t.Some? && t.value <= p.expiresAt.value
    ensures NoLaterThan(inputs, below, t)
  {
    forall x | x in below && inputs[x].expiresAt.Some?
      ensures t.Some? && t.value <= inputs[x].expiresAt.value
    {
      assert Covered(parts, x);
      var j :| 0 <= j < |parts| && x in parts[j];
      assert ps[j] in ps;
    }
  }

  lemma EarliestIsDeadline(inputs: Inputs, c: Id, below: set<Id>, parts: seq<set<Id>>, ps: seq<StatusDecision>, t: Option<int>)
    requires c in inputs && below <= inputs.Keys && |parts| == |ps| && IsUnion(below, parts)
    requires forall j :: 0 <= j < |ps| ==> IsDeadline(inputs, parts[j], ps[j].expiresAt)
    requires IsEarliest(t, inputs[c], ps)
    ensures IsDeadline(inputs, {c} + below, t)
  {
    DeadlineOfParts(inputs, below, parts, ps, t);
    if t.Some? && inputs[c].expiresAt != t {
      var p :| p in ps && p.expiresAt == t;
      var j :| 0 <= j < |ps| && ps[j] == p;
    }
  }

  lemma ComposeKeepsDeadline(inputs: Inputs, now: int, c: Id, below: set<Id>, parts: seq<set<Id>>, ps: seq<StatusDecision>)
    requires c in inputs && below <= inputs.Keys && |parts| == |ps| && IsUnion(below, parts)
    requires forall j :: 0 <= j < |ps| ==> IsDeadline(inputs, parts[j], ps[j].expiresAt)
    ensures IsDeadline(inputs, {c} + below, Compose(inputs[c], ps, now).expiresAt)
  {
    ComposeInheritsEarliestDeadline(inputs[c], ps, now);
    EarliestIsDeadline(inputs, c, below, parts, ps, Compose(inputs[c], ps, now).expiresAt);
  }

  /** Some premise is refuted, or with none refuted lapsed, exactly when the closure below says so. */
  lemma PremisesShowBelow(inputs: Inputs, now: int, below: set<Id>, parts: seq<set<Id>>, ps: seq<StatusDecision>)
    requires below <= inputs.Keys && |parts| == |ps| && IsUnion(below, parts)
    requires PartsMeet(inputs, now, below, parts, ps)
    ensures (exists p :: p in ps && Refresh(p, now).status.Refuted?) <==> Has(inputs, now, below, Refuted)
    ensures !Has(inputs, now, below, Refuted) ==>
              ((exists p :: p in ps && Refresh(p, now).status.Expired?) <==> Has(inputs, now, below, Expired))
  {
    if p :| p in ps && Refresh(p, now).status.Refuted? {
    } else {
      PremisesBound(inputs, now, below, parts, ps, Expired);
      if p :| p in ps && Refresh(p, now).status.Expired? {
      } else {
        PremisesBound(inputs, now, below, parts, ps, Unverified);
      }
    }
  }

  lemma ComposePoints(inputs: Inputs, now: int, c: Id, below: set<Id>, parts: seq<set<Id>>, ps: seq<StatusDecision>)
    requires c in inputs && below <= inputs.Keys && |parts| == |ps| && IsUnion(below, parts)
    requires PartsMeet(inputs, now, below, parts, ps)
    ensures Compose(inputs[c], ps, now).direction == DirectionFor(inputs, now, c, below)
  {
    ComposeDirection(inputs[c], ps, now);
    PremisesShowBelow(inputs, now, below, parts, ps);
  }

  /** Nothing positive survives a deadline that has passed anywhere in the summarised set. */
  lemma SummaryIsFresh(inputs: Inputs, now: int, s: set<Id>, status: EvidenceStatus, t: Option<int>)
    requires s <= inputs.Keys && IsMeet(inputs, now, s, status) && IsDeadline(inputs, s, t)
    ensures IsPositive(status) ==> t.None? || now < t.value
  {
    if IsPositive(status) && t.Some? {
      var x :| x in s && inputs[x].expiresAt == t;
      assert Rank(status) <= Rank(Fresh(inputs, now, x));
    }
  }

  /** The closure of `c` is `c` and the closures of its dependencies. */
  lemma ClosureUnfolds(inputs: Inputs, g: Deps, c: Id)
    requires c in inputs
    ensures Closure(inputs, g, c) == {c} + ClosureBelow(inputs, g, c)
    ensures c in g ==>
              IsUnion(ClosureBelow(inputs, g, c),
                      seq(|g[c]|, j requires 0 <= j < |g[c]| => Closure(inputs, g, g[c][j])))
  {
    forall x
      ensures Reaches(g, c, x) <==> x == c || Below(g, c, x)
    {
      ReachesUnfolds(g, c, x);
    }
    if c in g {
      var parts := seq(|g[c]|, j requires 0 <= j < |g[c]| => Closure(inputs, g, g[c][j]));
      forall j | 0 <= j < |parts|
        ensures parts[j] <= ClosureBelow(inputs, g, c)
      {
        assert Edge(g, c, g[c][j]);
      }
      forall x | x in ClosureBelow(inputs, g, c)
        ensures Covered(parts, x)
      {
        var d :| Edge(g, c, d) && Reaches(g, d, x);
        var j :| 0 <= j < |g[c]| && g[c][j] == d;
        assert x in parts[j];
      }
    }
  }

  /** One composition step: from premises that summarise their closures to a conclusion that does. */
  lemma ComposeStep(inputs: Inputs, g: Deps, now: int, c: Id, ps: seq<StatusDecision>)
    requires c in g && c in inputs && |ps| == |g[c]|
    requires forall j :: 0 <= j < |ps| ==> Summarises(inputs, now, Closure(inputs, g, g[c][j]), ps[j])
    ensures Composed(inputs, g, now, c, Compose(inputs[c], ps, now))
  {
    var r := Compose(inputs[c], ps, now);
    var below := ClosureBelow(inputs, g, c);
    var parts := seq(|g[c]|, j requires 0 <= j < |g[c]| => Closure(inputs, g, g[c][j]));
    ClosureUnfolds(inputs, g, c);
    ComposeGathers(inputs, now, c, below, parts, ps);
    SummaryIsFresh(inputs, now, {c} + below, r.status, r.expiresAt);
  }

  /** What one composition gathers from premises that summarise the parts of the closure below. */
  lemma ComposeGathers(inputs: Inputs, now: int, c: Id, below: set<Id>, parts: seq<set<Id>>, ps: seq<StatusDecision>)
    requires c in inputs && below <= inputs.Keys && |parts| == |ps| && IsUnion(below, parts)
    requires forall j :: 0 <= j < |ps| ==> parts[j] <= inputs.Keys && Summarises(inputs, now, parts[j], ps[j])
    ensures var r := Compose(inputs[c], ps, now);
            && IsMeet(inputs, now, {c} + below, r.status)
            && r.contested == ContestedIn(inputs, {c} + below)
            && r.modelDerivedSupportOnly == ModelDerivedIn(inputs, {c} + below)
            && IsDeadline(inputs, {c} + below, r.expiresAt)
            && r.direction == DirectionFor(inputs, now, c, below)
  {
    ComposeMeets(inputs, now, c, below, parts, ps);
    ComposeContests(inputs, now, c, below, parts, ps);
    ComposeIsModelDerived(inputs, now, c, below, parts, ps);
    ComposeKeepsDeadline(inputs, now, c, below, parts, ps);
    ComposePoints(inputs, now, c, below, parts, ps);
  }

  /** A claim without a premise node stands for itself. */
  lemma LoneClosure(inputs: Inputs, g: Deps, now: int, c: Id)
    requires c in inputs && c !in g
    ensures Summarises(inputs, now, Closure(inputs, g, c), inputs[c])
  {
    forall x
      ensures Reaches(g, c, x) <==> x == c
    {
      ReachesUnfolds(g, c, x);
    }
    assert Closure(inputs, g, c) == {c};
  }
}
