/** Bounded model enumeration, from glass_ionomer/lanes/logic/verify.py. */
module ModelSearch {
  import opened Wrappers
  import opened Sequences
  import opened Sorting
  import opened Lexicographic
  import opened Formulas
  import opened Evaluation

  function Pow2(n: nat): nat {
    if n == 0 then 1 else 2 * Pow2(n - 1)
  }

  function Bind(x: string, b: bool, envs: seq<Env>): (r: seq<Env>)
    ensures |r| == |envs| && forall i :: 0 <= i < |envs| ==> r[i] == envs[i][x := b]
  {
    seq(|envs|, i requires 0 <= i < |envs| => envs[i][x := b])
  }

  /** All assignments to the given names, in the order of `itertools.product((False, True), ...)`. */
  function Assignments(names: seq<string>): (r: seq<Env>)
    ensures |r| == Pow2(|names|)
  {
    if names == [] then [map[]]
    else Bind(names[0], false, Assignments(names[1..])) + Bind(names[0], true, Assignments(names[1..]))
  }

  function Names(names: seq<string>): set<string> {
    set x | x in names
  }

  /** Every assignment binds exactly the given names. */
  lemma {:induction false} AssignmentsBind(names: seq<string>)
    ensures forall a :: a in Assignments(names) ==> a.Keys == Names(names)
  {
    if names == [] {
    } else {
      AssignmentsBind(names[1..]);
      assert Names(names) == {names[0]} + Names(names[1..]);
      var rest := Assignments(names[1..]);
      forall a | a in Assignments(names)
        ensures a.Keys == Names(names)
      {
        var i :| 0 <= i < |Assignments(names)| && Assignments(names)[i] == a;
        var j := if i < |rest| then i else i - |rest|;
        assert rest[j] in rest;
      }
    }
  }

  function Restrict(v: Valuation, xs: set<string>): Env {
    map x | x in xs :: v(x)
  }

  /** Every valuation is met, as far as the names go, by some enumerated assignment. */
  lemma {:induction false} AssignmentsCover(names: seq<string>, v: Valuation)
    ensures Restrict(v, Names(names)) in Assignments(names)
  {
    if names == [] {
      assert Restrict(v, Names(names)) == map[];
    } else {
      AssignmentsCover(names[1..], v);
      BindCovers(names[0], v(names[0]), Assignments(names[1..]), Restrict(v, Names(names[1..])));
      assert Restrict(v, Names(names)) == Restrict(v, Names(names[1..]))[names[0] := v(names[0])];
    }
  }

  lemma BindCovers(x: string, b: bool, envs: seq<Env>, a: Env)
    requires a in envs
    ensures a[x := b] in Bind(x, b, envs)
  {
    var i :| 0 <= i < |envs| && envs[i] == a;
    assert Bind(x, b, envs)[i] == a[x := b];
  }

  /** Some total valuation agrees with an assignment. */
  function Complete(a: Env): Valuation {
    x => x in a && a[x]
  }

  ghost predicate Models(ts: seq<Term>, v: Valuation)
    requires AllWellFormed(ts)
  {
    forall i :: 0 <= i < |ts| ==> Truth(ts[i], v)
  }

  ghost predicate IsSatisfiable(ts: seq<Term>)
    requires AllWellFormed(ts)
  {
    exists v :: Models(ts, v)
  }

  /** Some model of the premises falsifies the target. */
  ghost predicate IsRefutable(ts: seq<Term>, target: Term)
    requires AllWellFormed(ts) && WellFormed(target)
  {
    exists v :: Models(ts, v) && !Truth(target, v)
  }

  /** Evaluating all constraints under an assignment to all their variables decides whether it is a model. */
  lemma EvalAllDecidesModel(ts: seq<Term>, a: Env, v: Valuation)
    requires AllWellFormed(ts) && AllVars(ts) <= a.Keys && Extends(v, a)
    ensures EvalAll(ts, a) == Ok(Models(ts, v))
  {
    AllTotal(ts, a);
    EvalAllIsSound(ts, a, v);
  }

  /** `_collect_vars`: adds the variables of one well-formed formula to those collected so far. */
  method CollectVars(t: Term, acc0: set<string>) returns (acc: set<string>)
    requires WellFormed(t)
    ensures acc == acc0 + Vars(t)
    decreases t
  {
    acc := acc0;
    if t.items[0] == Str("var") {
      acc := acc + {t.items[1].s};
    } else if t.items[0] != Str("const") {
      for i := 1 to |t.items|
        invariant acc + AllVars(t.items[i..]) == acc0 + Vars(t)
      {
        assert t.items[i..][0] == t.items[i] && t.items[i..][1..] == t.items[i + 1..];
        acc := CollectVars(t.items[i], acc);
      }
    }
  }

  method AllVarsOf(ts: seq<Term>) returns (acc: set<string>)
    requires AllWellFormed(ts)
    ensures acc == AllVars(ts)
  {
    acc := {};
    for i := 0 to |ts|
      invariant acc + AllVars(ts[i..]) == AllVars(ts)
    {
      assert ts[i..][0] == ts[i] && ts[i..][1..] == ts[i + 1..];
      acc := CollectVars(ts[i], acc);
    }
  }

  /** `names` lists the set in order. */
  ghost predicate IsListing(names: seq<string>, xs: set<string>) {
    Names(names) == xs && |names| == |xs| && IsSorted(names, Less)
  }

  lemma ListingGrows(names: seq<string>, xs: set<string>, x: string)
    requires IsListing(names, xs) && x !in xs
    ensures IsListing(Insert(x, names, Less), xs + {x})
  {
    LessIsOrder();
    InsertKeepsSorted(x, names, Less);
    InsertedMembers(x, names, Less);
    SameMembers(Insert(x, names, Less), [x] + names);
  }

  /** Python's `sorted` on a set of names. */
  method Listed(xs: set<string>) returns (names: seq<string>)
    ensures IsListing(names, xs)
  {
    names := [];
    var rest := xs;
    while rest != {}
      invariant IsListing(names, xs - rest) && rest <= xs
      decreases rest
    {
      var x :| x in rest;
      ListingGrows(names, xs - rest, x);
      names := Insert(x, names, Less);
      assert xs - (rest - {x}) == xs - rest + {x};
      rest := rest - {x};
    }
  }

  /** The first assignment that satisfies the constraints. */
  function FirstModel(ts: seq<Term>, envs: seq<Env>): Option<Env> {
    if envs == [] then None
    else if EvalAll(ts, envs[0]) == Ok(true) then Some(envs[0])
    else FirstModel(ts, envs[1..])
  }

  /** How many calls of `_eval` it takes to get there. */
  function ModelVisits(ts: seq<Term>, envs: seq<Env>): nat {
    if envs == [] then 0
    else
      VisitsUntil(ts, envs[0], false) + if EvalAll(ts, envs[0]) == Ok(true) then 0 else ModelVisits(ts, envs[1..])
  }

  lemma {:induction false} FirstModelIsModel(ts: seq<Term>, envs: seq<Env>)
    requires AllWellFormed(ts)
    ensures var found := FirstModel(ts, envs);
            if found.Some? then found.value in envs && EvalAll(ts, found.value) == Ok(true) else !AnyModel(ts, envs)
    ensures ModelVisits(ts, envs) <= Times(|envs|, Sizes(ts))
  {
    if envs == [] {
    } else {
      VisitsUntilAtMostSizes(ts, envs[0], false);
      if EvalAll(ts, envs[0]) != Ok(true) {
        FirstModelIsModel(ts, envs[1..]);
      }
    }
  }

  /** `all(_eval(c, a) for c in constraints)`, with the number of evaluator calls it makes. */
  method TryPremises(ts: seq<Term>, a: Env) returns (holds: bool, ghost visits: nat)
    requires AllWellFormed(ts) && AllVars(ts) <= a.Keys
    ensures EvalAll(ts, a) == Ok(holds) && visits == VisitsUntil(ts, a, false)
  {
    AllTotal(ts, a);
    var r;
    r, visits := EvaluateUntil(ts, a, false);
    holds := r.value;
  }

  /** Searches the assignments, in order, for a model of the constraints. */
  method FindModel(ts: seq<Term>, names: seq<string>) returns (found: Option<Env>, ghost visits: nat)
    requires AllWellFormed(ts) && AllVars(ts) == Names(names)
    ensures found.Some? ==> found.value.Keys == Names(names)
                            && forall v :: Extends(v, found.value) ==> Models(ts, v)
    ensures found.Some? <==> IsSatisfiable(ts)
    ensures found == FirstModel(ts, Assignments(names))
    ensures visits == ModelVisits(ts, Assignments(names)) <= Times(Pow2(|names|), Sizes(ts))
  {
    var all := Assignments(names);
    AssignmentsBind(names);
    found, visits := None, 0;
    var i := 0;
    assert all[0..] == all;
    while i < |all| && found.None?
      invariant i <= |all|
      invariant FirstModel(ts, all) == if found.Some? then found else FirstModel(ts, all[i..])
      invariant ModelVisits(ts, all) == visits + if found.Some? then 0 else ModelVisits(ts, all[i..])
    {
      var a := all[i];
      assert a in all && all[i..][0] == a && all[i..][1..] == all[i + 1..];
      var holds;
      ghost var more;
      holds, more := TryPremises(ts, a);
      visits := visits + more;
      if holds {
        found := Some(a);
      }
      i := i + 1;
    }
    FirstModelDecides(ts, names);
  }

  /** The first model among the assignments decides satisfiability. */
  lemma FirstModelDecides(ts: seq<Term>, names: seq<string>)
    requires AllWellFormed(ts) && AllVars(ts) == Names(names)
    ensures var found := FirstModel(ts, Assignments(names));
            && (found.Some? <==> IsSatisfiable(ts))
            && (found.Some? ==> found.value.Keys == Names(names) && forall v :: Extends(v, found.value) ==> Models(ts, v))
    ensures ModelVisits(ts, Assignments(names)) <= Times(Pow2(|names|), Sizes(ts))
  {
    var found := FirstModel(ts, Assignments(names));
    FirstModelIsModel(ts, Assignments(names));
    AssignmentsBind(names);
    PremiseModelAmong(ts, names);
    if found.Some? {
      WitnessIsModel(ts, found.value);
    }
  }

  lemma WitnessIsModel(ts: seq<Term>, a: Env)
    requires AllWellFormed(ts) && AllVars(ts) <= a.Keys && EvalAll(ts, a) == Ok(true)
    ensures forall v :: Extends(v, a) ==> Models(ts, v)
    ensures IsSatisfiable(ts)
  {
    forall v | Extends(v, a)
      ensures Models(ts, v)
    {
      EvalAllDecidesModel(ts, a, v);
    }
    assert Extends(Complete(a), a);
    assert Models(ts, Complete(a));
  }

  /** `k` added `n` times. */
  function Times(n: nat, k: nat): nat {
    if n == 0 then 0 else Times(n - 1, k) + k
  }

  lemma {:induction false} TimesIsProduct(n: nat, k: nat)
    ensures Times(n, k) == n * k
  {
    if n == 0 {
    } else {
      TimesIsProduct(n - 1, k);
    }
  }

  ghost predicate AnyModel(ts: seq<Term>, envs: seq<Env>) {
    exists a :: a in envs && EvalAll(ts, a) == Ok(true)
  }

  ghost predicate NoneRefutes(ts: seq<Term>, target: Term, envs: seq<Env>) {
    forall a :: a in envs ==> EvalAll(ts, a) == Ok(false) || Eval(target, a) == Ok(true)
  }

  lemma TwoValued(r: Result<bool>)
    requires r.Ok?
    ensures r == Ok(true) || r == Ok(false)
  {
    match r
    case Ok(b) => assert b || !b;
  }

  /** The first assignment that satisfies the premises and falsifies the target. */
  function FirstCounterexample(ts: seq<Term>, target: Term, envs: seq<Env>): Option<Env> {
    if envs == [] then None
    else if EvalAll(ts, envs[0]) == Ok(true) && Eval(target, envs[0]) == Ok(false) then Some(envs[0])
    else FirstCounterexample(ts, target, envs[1..])
  }

  function JointSize(ts: seq<Term>, target: Term): nat {
    Sizes(ts) + Size(target)
  }

  /** What one assignment costs: the target is evaluated only where the premises hold. */
  function AttemptVisits(ts: seq<Term>, target: Term, a: Env): nat {
    VisitsUntil(ts, a, false) + if EvalAll(ts, a) == Ok(true) then Visits(target, a) else 0
  }

  function CounterexampleVisits(ts: seq<Term>, target: Term, envs: seq<Env>): nat {
    if envs == [] then 0
    else
      AttemptVisits(ts, target, envs[0])
      + if EvalAll(ts, envs[0]) == Ok(true) && Eval(target, envs[0]) == Ok(false) then 0
        else CounterexampleVisits(ts, target, envs[1..])
  }

  lemma {:induction false} FirstCounterexampleRefutes(ts: seq<Term>, target: Term, envs: seq<Env>)
    requires AllWellFormed(ts) && WellFormed(target)
    requires forall a :: a in envs ==> AllVars(ts) + Vars(target) <= a.Keys
    ensures var found := FirstCounterexample(ts, target, envs);
            if found.Some? then found.value in envs && EvalAll(ts, found.value) == Ok(true) && Eval(target, found.value) == Ok(false)
            else NoneRefutes(ts, target, envs)
  {
    if envs == [] {
    } else {
      AllTotal(ts, envs[0]);
      EvalIsTotal(target, envs[0]);
      FirstCounterexampleRefutes(ts, target, envs[1..]);
      TwoValued(EvalAll(ts, envs[0]));
      TwoValued(Eval(target, envs[0]));
      assert forall a :: a in envs <==> a == envs[0] || a in envs[1..];
    }
  }

  lemma {:induction false} CounterexampleVisitsBounded(ts: seq<Term>, target: Term, envs: seq<Env>)
    requires AllWellFormed(ts) && WellFormed(target)
    ensures CounterexampleVisits(ts, target, envs) <= Times(|envs|, JointSize(ts, target))
  {
    if envs == [] {
    } else {
      VisitsUntilAtMostSizes(ts, envs[0], false);
      VisitsAtMostSize(target, envs[0]);
      CounterexampleVisitsBounded(ts, target, envs[1..]);
    }
  }

  /** Evaluates the premises and, only where they hold, the target. */
  method TryCounterexample(ts: seq<Term>, target: Term, a: Env) returns (holds: bool, refutes: bool, ghost visits: nat)
    requires AllWellFormed(ts) && WellFormed(target) && AllVars(ts) + Vars(target) <= a.Keys
    ensures EvalAll(ts, a) == Ok(holds) && (holds ==> Eval(target, a) == Ok(!refutes))
    ensures visits == AttemptVisits(ts, target, a)
  {
    holds, visits := TryPremises(ts, a);
    refutes := false;
    if holds {
      EvalIsTotal(target, a);
      var r;
      ghost var more;
      r, more := Evaluate(target, a);
      refutes, visits := !r.value, visits + more;
    }
  }

  /** Searches the assignments, in order, for one that satisfies the premises and falsifies the target. */
  method FindCounterexample(ts: seq<Term>, target: Term, names: seq<string>)
    returns (found: Option<Env>, anyPremiseModel: bool, ghost visits: nat)
    requires AllWellFormed(ts) && WellFormed(target) && AllVars(ts) + Vars(target) == Names(names)
    ensures found.Some? ==> found.value.Keys == Names(names)
                            && forall v :: Extends(v, found.value) ==> Models(ts, v) && !Truth(target, v)
    ensures found.Some? <==> IsRefutable(ts, target)
    ensures found.None? ==> (anyPremiseModel <==> IsSatisfiable(ts))
    ensures found == FirstCounterexample(ts, target, Assignments(names))
    ensures visits == CounterexampleVisits(ts, target, Assignments(names)) <= Times(Pow2(|names|), JointSize(ts, target))
  {
    var all := Assignments(names);
    AssignmentsBind(names);
    found, anyPremiseModel, visits := None, false, 0;
    var i := 0;
    assert all[0..] == all;
    while i < |all| && found.None?
      invariant i <= |all|
      invariant FirstCounterexample(ts, target, all) == if found.Some? then found else FirstCounterexample(ts, target, all[i..])
      invariant CounterexampleVisits(ts, target, all)
                == visits + if found.Some? then 0 else CounterexampleVisits(ts, target, all[i..])
      invariant AnyModel(ts, all) <==> anyPremiseModel || AnyModel(ts, all[i..])
    {
      var a := all[i];
      assert a in all;
      var holds, refutes;
      ghost var more;
      holds, refutes, more := TryCounterexample(ts, target, a);
      visits := visits + more;
      if holds {
        anyPremiseModel := true;
        if refutes {
          found := Some(a);
        }
      }
      i := i + 1;
    }
    FirstCounterexampleDecides(ts, target, names);
    PremiseModelAmong(ts, names);
  }

  /** The first counterexample among the assignments decides refutability. */
  lemma FirstCounterexampleDecides(ts: seq<Term>, target: Term, names: seq<string>)
    requires AllWellFormed(ts) && WellFormed(target) && AllVars(ts) + Vars(target) == Names(names)
    ensures var found := FirstCounterexample(ts, target, Assignments(names));
            && (found.Some? <==> IsRefutable(ts, target))
            && (found.Some? ==> found.value.Keys == Names(names)
                                && forall v :: Extends(v, found.value) ==> Models(ts, v) && !Truth(target, v))
    ensures CounterexampleVisits(ts, target, Assignments(names)) <= Times(Pow2(|names|), JointSize(ts, target))
  {
    var found := FirstCounterexample(ts, target, Assignments(names));
    AssignmentsBind(names);
    FirstCounterexampleRefutes(ts, target, Assignments(names));
    CounterexampleVisitsBounded(ts, target, Assignments(names));
    if found.Some? {
      CounterexampleRefutes(ts, target, found.value);
    } else {
      NoCounterexampleAmong(ts, target, names);
    }
  }

  lemma CounterexampleRefutes(ts: seq<Term>, target: Term, a: Env)
    requires AllWellFormed(ts) && WellFormed(target) && AllVars(ts) + Vars(target) <= a.Keys
    requires EvalAll(ts, a) == Ok(true) && Eval(target, a) == Ok(false)
    ensures forall v :: Extends(v, a) ==> Models(ts, v) && !Truth(target, v)
    ensures IsRefutable(ts, target)
  {
    forall v | Extends(v, a)
      ensures Models(ts, v) && !Truth(target, v)
    {
      EvalAllDecidesModel(ts, a, v);
      EvalIsSound(target, a, v);
    }
    assert Extends(Complete(a), a);
    assert Models(ts, Complete(a));
  }

  lemma NoCounterexampleAmong(ts: seq<Term>, target: Term, names: seq<string>)
    requires AllWellFormed(ts) && WellFormed(target) && AllVars(ts) + Vars(target) <= Names(names)
    requires NoneRefutes(ts, target, Assignments(names))
    ensures !IsRefutable(ts, target)
  {
    forall v | Models(ts, v)
      ensures Truth(target, v)
    {
      var a := Restrict(v, Names(names));
      AssignmentsCover(names, v);
      EvalAllDecidesModel(ts, a, v);
      EvalIsSound(target, a, v);
    }
  }

  lemma PremiseModelAmong(ts: seq<Term>, names: seq<string>)
    requires AllWellFormed(ts) && AllVars(ts) <= Names(names)
    ensures IsSatisfiable(ts) <==> AnyModel(ts, Assignments(names))
  {
    AssignmentsBind(names);
    if v :| Models(ts, v) {
      AssignmentsCover(names, v);
      EvalAllDecidesModel(ts, Restrict(v, Names(names)), v);
    }
    if a :| a in Assignments(names) && EvalAll(ts, a) == Ok(true) {
      assert Extends(Complete(a), a);
      EvalAllDecidesModel(ts, a, Complete(a));
    }
  }
}
