/** Relations between the verdicts of the logic lane. */
module LogicTheorems {
  import opened Wrappers
  import opened Numbers
  import opened Sequences
  import opened Sorting
  import opened Lexicographic
  import opened Formulas
  import opened Evaluation
  import opened ShapeCheck
  import opened ModelSearch
  import opened LogicLane

  /** An entailment that passes holds under every valuation and is not vacuous. */
  lemma EntailmentIsSound(c: LogicClaim, v: Valuation)
    requires c.mode.Entailment? && Answer(c) == Pass
    ensures AllWellFormed(c.constraints) && WellFormed(c.target)
    ensures IsSatisfiable(c.constraints)
    ensures Models(c.constraints, v) ==> Truth(c.target, v)
  {
    AcceptedAreWellFormed(c);
  }

  lemma {:induction false} FirstFalse(ts: seq<Term>, env: Env) returns (i: nat)
    requires EvalAll(ts, env) == Ok(false)
    ensures i < |ts| && Eval(ts[i], env) == Ok(false)
  {
    i := 0;
    if Eval(ts[0], env) == Ok(true) {
      var j := FirstFalse(ts[1..], env);
      i := j + 1;
    }
  }

  lemma {:induction false} AllEvaluated(ts: seq<Term>, env: Env)
    requires EvalAll(ts, env) == Ok(true)
    ensures forall i :: 0 <= i < |ts| ==> Eval(ts[i], env) == Ok(true)
  {
    if ts == [] {
    } else {
      AllEvaluated(ts[1..], env);
      assert forall i :: 1 <= i < |ts| ==> ts[i] == ts[1..][i - 1];
    }
  }

  /** A model check that passes or fails does so for every completion of a partial model. */
  lemma ModelCheckIsSound(c: LogicClaim, v: Valuation)
    requires c.mode.ModelCheck? && Extends(v, c.model)
    ensures Answer(c) == Pass ==> AllWellFormed(c.constraints) && Models(c.constraints, v)
    ensures Answer(c) == Fail ==> exists t :: t in c.constraints && WellFormed(t) && !Truth(t, v)
  {
    if Answer(c) == Pass {
      AllEvaluated(c.constraints, c.model);
      assert Eval(Nothing, c.model).Raised?;
      AcceptedAreWellFormed(c);
      EvalAllIsSound(c.constraints, c.model, v);
    }
    if Answer(c) == Fail {
      var i := FirstFalse(c.constraints, c.model);
      var t := c.constraints[i];
      assert t in Submitted(c) && t in Given(Submitted(c));
      EvalIsSound(t, c.model, v);
    }
  }

  /** What is reported as a counterexample is one, in every completion. */
  lemma CounterexampleIsGenuine(c: LogicClaim, a: Env, v: Valuation)
    requires Acceptable(Submitted(c)) && Refutes(c, a) && Extends(v, a)
    ensures c.mode.ModelCheck? ==> exists t :: t in c.constraints && WellFormed(t) && !Truth(t, v)
    ensures c.mode.Entailment? ==> AllWellFormed(c.constraints) && Models(c.constraints, v) && WellFormed(c.target) && !Truth(c.target, v)
    ensures c.mode.Unsatisfiable? ==> AllWellFormed(c.constraints) && Models(c.constraints, v)
    ensures !c.mode.Satisfiable?
  {
    AcceptedAreWellFormed(c);
    if c.mode.ModelCheck? {
      var i := FirstFalse(c.constraints, a);
      var t := c.constraints[i];
      assert t in Submitted(c) && t in Given(Submitted(c));
      EvalIsSound(t, a, v);
    }
  }

  /** On the same constraints the two satisfiability modes answer oppositely, or both abstain. */
  lemma SatisfiabilityIsDual(c: LogicClaim)
    ensures var s, u := Answer(c.(mode := Satisfiable)), Answer(c.(mode := Unsatisfiable));
            && (s == Pass <==> u == Fail)
            && (s == Fail <==> u == Pass)
            && (s == Abstain <==> u == Abstain)
  {
    assert Submitted(c.(mode := Satisfiable)) == Submitted(c) == Submitted(c.(mode := Unsatisfiable));
  }

  function Not(t: Term): Term {
    Items([Str("not"), t])
  }

  /** The refutation form of an entailment claim: its premises with its target negated. */
  function RefutationOf(c: LogicClaim): LogicClaim {
    LogicClaim(c.id, Unsatisfiable, c.constraints + [Not(c.target)], Nothing, c.model)
  }

  lemma NegationUnfolds(t: Term)
    requires IsExpr(t)
    ensures WellFormed(Not(t)) <==> WellFormed(t)
    ensures Size(Not(t)) == 1 + Size(t) && Depth(Not(t)) == 1 + Depth(t) && Vars(Not(t)) == Vars(t)
    ensures WellFormed(t) ==> forall v :: Truth(Not(t), v) == !Truth(t, v)
  {
    var n := Not(t);
    assert n.items[1..] == [t] && [t][1..] == [];
    assert Sizes([t]) == Size(t) + Sizes([]) && Depths([t]) == Max(Depth(t), Depths([]));
    assert AllVars([t]) == Vars(t) + AllVars([]);
  }

  lemma {:induction false} AllVarsOfConcat(a: seq<Term>, b: seq<Term>)
    ensures AllVars(a + b) == AllVars(a) + AllVars(b)
  {
    if a == [] {
      assert a + b == b;
    } else {
      AllVarsOfConcat(a[1..], b);
      assert (a + b)[1..] == a[1..] + b;
    }
  }

  /** The refutation form asks for the same models. */
  lemma RefutationModels(ts: seq<Term>, target: Term)
    requires AllWellFormed(ts) && WellFormed(target)
    ensures AllWellFormed(ts + [Not(target)])
    ensures IsSatisfiable(ts + [Not(target)]) <==> IsRefutable(ts, target)
  {
    NegationUnfolds(target);
    var more := ts + [Not(target)];
    forall v
      ensures Models(more, v) <==> Models(ts, v) && !Truth(target, v)
    {
      if Models(more, v) {
        assert forall i :: 0 <= i < |ts| ==> more[i] == ts[i];
        assert more[|ts|] == Not(target);
      }
    }
  }

  /** Within budget, the premises with the negated target are unsatisfiable exactly when entailment does not fail. */
  lemma EntailmentByRefutation(c: LogicClaim)
    requires c.mode.Entailment? && c.target != Nothing && AllPresent(c.constraints)
    requires Acceptable(Submitted(c)) && Acceptable(Submitted(RefutationOf(c)))
    requires WithinBudget(AllVars(c.constraints) + Vars(c.target), Sizes(Given(Submitted(RefutationOf(c)))))
    ensures Answer(RefutationOf(c)) == Pass <==> Answer(c) == Pass || Answer(c) == Abstain
    ensures Answer(RefutationOf(c)) == Fail <==> Answer(c) == Fail
    ensures Answer(c) == Abstain <==> AllWellFormed(c.constraints) && !IsSatisfiable(c.constraints)
  {
    AcceptedAreWellFormed(c);
    NegationUnfolds(c.target);
    RefutationModels(c.constraints, c.target);
    AllVarsOfConcat(c.constraints, [Not(c.target)]);
    assert AllVars([Not(c.target)]) == Vars(Not(c.target)) + AllVars([]);
    NodesOfSubmitted(c);
    NodesOfSubmitted(RefutationOf(c));
    SizesOfConcat(c.constraints, [Not(c.target)]);
    assert [Not(c.target)][1..] == [] && Sizes([Not(c.target)]) == Size(Not(c.target)) + Sizes([]);
    SmallerIsCheaper(AllVars(c.constraints) + Vars(c.target), Sizes(Given(Submitted(c))), Sizes(Given(Submitted(RefutationOf(c)))));
    if !IsSatisfiable(c.constraints) {
      assert !IsRefutable(c.constraints, c.target);
    }
  }

  lemma SmallerIsCheaper(vars: set<string>, m: nat, n: nat)
    requires m <= n && WithinBudget(vars, n)
    ensures WithinBudget(vars, m)
  {
    var p := Pow2(|vars|);
    TimesMonotone(p, Max(1, m), Max(1, n));
    TimesIsProduct(p, Max(1, m));
    TimesIsProduct(p, Max(1, n));
  }

  lemma ListingIsUnique(names: seq<string>, others: seq<string>, xs: set<string>)
    requires IsListing(names, xs) && IsListing(others, xs)
    ensures names == others
  {
    LessIsOrder();
    NoRepetition(names, xs);
    NoRepetition(others, xs);
    assert forall x :: x in names <==> x in Names(names);
    assert forall x :: x in others <==> x in Names(others);
    SameCounts(names, others);
    SortedIsUnique(names, others, Less);
  }

  lemma {:induction false} NoRepetition(names: seq<string>, xs: set<string>)
    requires Names(names) == xs && |names| == |xs|
    ensures forall i, j :: 0 <= i < j < |names| ==> names[i] != names[j]
  {
    forall i, j | 0 <= i < j < |names|
      ensures names[i] != names[j]
    {
      if names[i] == names[j] {
        var fewer := names[..j] + names[j + 1..];
        forall x | x in xs
          ensures x in fewer
        {
          var k :| 0 <= k < |names| && names[k] == x;
          if k < j {
            assert fewer[k] == x;
          } else if k > j {
            assert fewer[k - 1] == x;
          } else {
            assert fewer[i] == x;
          }
        }
        AtMostLength(fewer, xs);
      }
    }
  }

  lemma {:induction false} AtMostLength(names: seq<string>, xs: set<string>)
    requires forall x :: x in xs ==> x in names
    ensures |xs| <= |names|
  {
    if names == [] {
      assert xs == {};
    } else {
      AtMostLength(names[1..], xs - {names[0]});
    }
  }

  /** What a decision finds, and at what cost, is determined by the claim. */
  lemma ExplorationIsDetermined(c: LogicClaim, found: Option<Env>, visits: nat, found': Option<Env>, visits': nat)
    requires Explored(c, found, visits) && Explored(c, found', visits')
    ensures found == found' && visits == visits'
  {
    var xs := AllVars(c.constraints) + if c.mode.Entailment? then Vars(c.target) else {};
    assert !c.mode.Entailment? ==> xs == AllVars(c.constraints);
    forall names, others | IsListing(names, xs) && IsListing(others, xs)
      ensures names == others
    {
      ListingIsUnique(names, others, xs);
    }
  }
}
