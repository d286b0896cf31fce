/** The verdicts and the claim verifier of glass_ionomer/lanes/logic/verify.py. */
module LogicLane {
  import opened Wrappers
  import opened Numbers
  import opened Formulas
  import opened Evaluation
  import opened ShapeCheck
  import opened ModelSearch
  import opened Status
  import Decision

  const MAX_VARS := 18
  const MAX_EVAL_STEPS := 1_000_000

  datatype Mode = ModelCheck | Entailment | Satisfiable | Unsatisfiable | UnknownMode

  datatype Verdict = Pass | Fail | Abstain

  /** A missing target is `Nothing`; a missing model is the empty map. */
  datatype LogicClaim = LogicClaim(id: string, mode: Mode, constraints: seq<Term>, target: Term, model: Env)

  predicate WithinBudget(vars: set<string>, nodes: nat) {
    |vars| <= MAX_VARS && Pow2(|vars|) * Max(1, nodes) <= MAX_EVAL_STEPS
  }

  /** What the shape check is given: the constraints, and the target where there is one. */
  function Submitted(c: LogicClaim): seq<Term> {
    c.constraints + if c.target == Nothing then [] else [c.target]
  }

  predicate AllPresent(ts: seq<Term>) {
    Nothing !in ts
  }

  lemma AcceptedAreWellFormed(c: LogicClaim)
    requires Acceptable(Submitted(c))
    ensures AllPresent(c.constraints) ==> AllWellFormed(c.constraints)
    ensures c.target != Nothing ==> WellFormed(c.target)
  {
    forall t | t in Submitted(c) && t != Nothing
      ensures WellFormed(t)
    {
      assert t in Given(Submitted(c));
    }
    if c.target != Nothing {
      assert c.target in Submitted(c);
    }
    forall i | 0 <= i < |c.constraints| && c.constraints[i] != Nothing
      ensures WellFormed(c.constraints[i])
    {
      assert c.constraints[i] in Submitted(c);
    }
  }

  lemma {:induction false} GivenOfPresent(ts: seq<Term>)
    requires AllPresent(ts)
    ensures Given(ts) == ts
  {
    if ts == [] {
    } else {
      GivenOfPresent(ts[1..]);
    }
  }

  lemma {:induction false} SizesOfConcat(a: seq<Term>, b: seq<Term>)
    ensures Sizes(a + b) == Sizes(a) + Sizes(b)
  {
    if a == [] {
      assert a + b == b;
    } else {
      SizesOfConcat(a[1..], b);
      assert (a + b)[1..] == a[1..] + b;
    }
  }

  /** The node count is the size of the constraints and of the target. */
  lemma NodesOfSubmitted(c: LogicClaim)
    requires AllPresent(c.constraints)
    ensures Sizes(Given(Submitted(c))) == Sizes(c.constraints) + if c.target == Nothing then 0 else Size(c.target)
  {
    GivenOfPresent(Submitted(c));
    if c.target == Nothing {
      assert Submitted(c) == c.constraints;
    } else {
      SizesOfConcat(c.constraints, [c.target]);
      assert [c.target][1..] == [] && Sizes([c.target]) == Size(c.target) + Sizes([]);
    }
  }

  /** The answer a claim deserves; abstention covers malformed claims and those beyond the budget. */
  ghost function Answer(c: LogicClaim): Verdict {
    if !Acceptable(Submitted(c)) then Abstain
    else
      var nodes := Sizes(Given(Submitted(c)));
      AcceptedAreWellFormed(c);
      match c.mode
      case ModelCheck =>
        if c.model == map[] || c.constraints == [] then Abstain
        else
          (match EvalAll(c.constraints, c.model)
           case Ok(holds) => if holds then Pass else Fail
           case Raised => Abstain)
      case Entailment =>
        if c.target == Nothing || !AllPresent(c.constraints) then Abstain
        else if !WithinBudget(AllVars(c.constraints) + Vars(c.target), nodes) then Abstain
        else if IsRefutable(c.constraints, c.target) then Fail
        else if IsSatisfiable(c.constraints) then Pass
        else Abstain
      case Satisfiable =>
        if !AllPresent(c.constraints) || !WithinBudget(AllVars(c.constraints), nodes) then Abstain
        else if IsSatisfiable(c.constraints) then Pass
        else Fail
      case Unsatisfiable =>
        if !AllPresent(c.constraints) || !WithinBudget(AllVars(c.constraints), nodes) then Abstain
        else if IsSatisfiable(c.constraints) then Fail
        else Pass
      case UnknownMode => Abstain
  }

  /** Every completion of `a` satisfies all the constraints. */
  ghost predicate IsModel(c: LogicClaim, a: Env)
    requires Acceptable(Submitted(c))
  {
    AcceptedAreWellFormed(c);
    AllPresent(c.constraints) && forall v :: Extends(v, a) ==> Models(c.constraints, v)
  }

  /** What a reported counterexample must show. */
  ghost predicate Refutes(c: LogicClaim, a: Env)
    requires Acceptable(Submitted(c))
  {
    AcceptedAreWellFormed(c);
    match c.mode
    case ModelCheck => a == c.model && EvalAll(c.constraints, a) == Ok(false)
    case Entailment =>
      && c.target != Nothing && AllPresent(c.constraints)
      && forall v :: Extends(v, a) ==> Models(c.constraints, v) && !Truth(c.target, v)
    case Unsatisfiable => IsModel(c, a)
    case Satisfiable => false
    case UnknownMode => false
  }

  /** What the search of a claim finds over its variables in order, and how many calls of `_eval` it makes. */
  ghost predicate Searched(c: LogicClaim, found: Option<Env>, visits: nat) {
    if c.mode.Entailment? then
      exists names ::
        && IsListing(names, AllVars(c.constraints) + Vars(c.target))
        && found == FirstCounterexample(c.constraints, c.target, Assignments(names))
        && visits == CounterexampleVisits(c.constraints, c.target, Assignments(names))
    else
      exists names ::
        && IsListing(names, AllVars(c.constraints))
        && found == FirstModel(c.constraints, Assignments(names))
        && visits == ModelVisits(c.constraints, Assignments(names))
  }

  /** What a decision costs: nothing where it abstains before any evaluation. */
  ghost predicate Explored(c: LogicClaim, found: Option<Env>, visits: nat) {
    match c.mode
    case ModelCheck =>
      if c.model == map[] || c.constraints == [] then found == None && visits == 0
      else found == Some(c.model) && visits == VisitsUntil(c.constraints, c.model, false)
    case UnknownMode => found == None && visits == 0
    case _ =>
      if (c.mode.Entailment? && c.target == Nothing) || !AllPresent(c.constraints) || !AffordableSearch(c) then
        found == None && visits == 0
      else Searched(c, found, visits)
  }

  /** The search of a claim that is to be enumerated is within budget. */
  predicate AffordableSearch(c: LogicClaim) {
    WithinBudget(AllVars(c.constraints) + if c.mode.Entailment? then Vars(c.target) else {}, Sizes(Given(Submitted(c))))
  }

  /**
   `_decide` on a claim whose shape has been accepted; an exception is the result Raised. The payload is a
   counterexample on failure and a model where the constraints turn out satisfiable.
  */
  method Decide(c: LogicClaim, nodeCount: nat)
    returns (r: Result<Verdict>, payload: Option<Env>, ghost visits: nat)
    requires Acceptable(Submitted(c)) && nodeCount == Sizes(Given(Submitted(c)))
    ensures Answer(c) == if r.Ok? then r.value else Abstain
    ensures r == Ok(Fail) && payload.Some? ==> Refutes(c, payload.value)
    ensures r == Ok(Fail) && !c.mode.Satisfiable? ==> payload.Some?
    ensures r == Ok(Pass) && c.mode.Satisfiable? ==> payload.Some? && IsModel(c, payload.value)
    ensures Explored(c, payload, visits) && (!c.mode.ModelCheck? ==> visits <= MAX_EVAL_STEPS)
  {
    AcceptedAreWellFormed(c);
    r, payload, visits := Ok(Abstain), None, 0;
    match c.mode
    case ModelCheck =>
      if c.model != map[] && c.constraints != [] {
        r, visits := CheckModel(c);
        payload := Some(c.model);
      }
    case Entailment =>
      if c.target != Nothing {
        r, payload, visits := DecideEntailment(c, nodeCount);
      }
    case Satisfiable =>
      r, payload, visits := DecideSatisfiability(c, nodeCount);
    case Unsatisfiable =>
      r, payload, visits := DecideUnsatisfiability(c, nodeCount);
    case UnknownMode =>
  }

  method DecideUnsatisfiability(c: LogicClaim, nodeCount: nat)
    returns (r: Result<Verdict>, counterexample: Option<Env>, ghost visits: nat)
    requires c.mode.Unsatisfiable?
    requires Acceptable(Submitted(c)) && nodeCount == Sizes(Given(Submitted(c)))
    ensures Answer(c) == if r.Ok? then r.value else Abstain
    ensures r == Ok(Fail) ==> counterexample.Some? && Refutes(c, counterexample.value)
    ensures Explored(c, counterexample, visits) && visits <= MAX_EVAL_STEPS
  {
    AcceptedAreWellFormed(c);
    r, counterexample, visits := DecideSatisfiability(c, nodeCount);
    if r == Ok(Pass) {
      r := Ok(Fail);
    } else if r == Ok(Fail) {
      r := Ok(Pass);
    }
  }

  method CheckModel(c: LogicClaim) returns (r: Result<Verdict>, ghost visits: nat)
    ensures r == match EvalAll(c.constraints, c.model)
                 case Ok(holds) => Ok(if holds then Pass else Fail)
                 case Raised => Raised
    ensures visits == VisitsUntil(c.constraints, c.model, false)
  {
    visits := 0;
    assert c.constraints[0..] == c.constraints;
    for i := 0 to |c.constraints|
      invariant EvalAll(c.constraints, c.model) == EvalAll(c.constraints[i..], c.model)
      invariant VisitsUntil(c.constraints, c.model, false) == visits + VisitsUntil(c.constraints[i..], c.model, false)
    {
      assert c.constraints[i..][0] == c.constraints[i] && c.constraints[i..][1..] == c.constraints[i + 1..];
      var holds;
      ghost var more;
      holds, more := Evaluate(c.constraints[i], c.model);
      visits := visits + more;
      if holds.Raised? {
        return Raised, visits;
      }
      if !holds.value {
        return Ok(Fail), visits;
      }
    }
    r := Ok(Pass);
  }

  method DecideEntailment(c: LogicClaim, nodeCount: nat)
    returns (r: Result<Verdict>, counterexample: Option<Env>, ghost visits: nat)
    requires c.mode.Entailment? && c.target != Nothing
    requires Acceptable(Submitted(c)) && nodeCount == Sizes(Given(Submitted(c)))
    ensures Answer(c) == if r.Ok? then r.value else Abstain
    ensures r == Ok(Fail) ==> counterexample.Some? && Refutes(c, counterexample.value)
    ensures Explored(c, counterexample, visits) && visits <= MAX_EVAL_STEPS
  {
    AcceptedAreWellFormed(c);
    r, counterexample, visits := Raised, None, 0;
    if AllPresent(c.constraints) {
      var vars := AllVarsOf(c.constraints);
      vars := CollectVars(c.target, vars);
      if !WithinBudget(vars, nodeCount) {
        return Ok(Abstain), None, 0;
      }
      var names := Listed(vars);
      var verdict;
      verdict, counterexample, visits := SearchEntailment(c, nodeCount, names);
      r := Ok(verdict);
    }
  }

  /** The budget covers one evaluation of every node under every assignment. */
  lemma BudgetCovers(vars: set<string>, nodes: nat, n: nat, k: nat)
    requires WithinBudget(vars, nodes) && n == Pow2(|vars|) && k <= nodes
    ensures Times(n, k) <= MAX_EVAL_STEPS
  {
    TimesMonotone(n, k, Max(1, nodes));
    TimesIsProduct(n, Max(1, nodes));
  }

  method SearchEntailment(c: LogicClaim, nodeCount: nat, names: seq<string>)
    returns (verdict: Verdict, counterexample: Option<Env>, ghost visits: nat)
    requires c.mode.Entailment? && c.target != Nothing && AllPresent(c.constraints)
    requires Acceptable(Submitted(c)) && nodeCount == Sizes(Given(Submitted(c)))
    requires IsListing(names, AllVars(c.constraints) + Vars(c.target)) && WithinBudget(Names(names), nodeCount)
    ensures Answer(c) == verdict
    ensures verdict.Fail? ==> counterexample.Some? && Refutes(c, counterexample.value)
    ensures Searched(c, counterexample, visits) && visits <= MAX_EVAL_STEPS
  {
    NodesOfSubmitted(c);
    BudgetCovers(Names(names), nodeCount, Pow2(|names|), JointSize(c.constraints, c.target));
    var anyPremiseModel;
    counterexample, anyPremiseModel, visits := FindCounterexample(c.constraints, c.target, names);
    verdict := if counterexample.Some? then Fail else if anyPremiseModel then Pass else Abstain;
  }

  /** The search shared by the satisfiable and unsatisfiable modes: Pass when a model exists. */
  method DecideSatisfiability(c: LogicClaim, nodeCount: nat)
    returns (r: Result<Verdict>, found: Option<Env>, ghost visits: nat)
    requires c.mode.Satisfiable? || c.mode.Unsatisfiable?
    requires Acceptable(Submitted(c)) && nodeCount == Sizes(Given(Submitted(c)))
    ensures Answer(c.(mode := Satisfiable)) == if r.Ok? then r.value else Abstain
    ensures r == Ok(Pass) ==> found.Some? && IsModel(c, found.value)
    ensures r == Ok(Fail) ==> found.None?
    ensures Explored(c, found, visits) && visits <= MAX_EVAL_STEPS
  {
    AcceptedAreWellFormed(c);
    r, found, visits := Raised, None, 0;
    if AllPresent(c.constraints) {
      var vars := AllVarsOf(c.constraints);
      if !WithinBudget(vars, nodeCount) {
        return Ok(Abstain), None, 0;
      }
      NodesOfSubmitted(c);
      var names := Listed(vars);
      BudgetCovers(vars, nodeCount, Pow2(|names|), Sizes(c.constraints));
      found, visits := FindModel(c.constraints, names);
      r := Ok(if found.Some? then Pass else Fail);
    }
  }

  lemma {:induction false} TimesMonotone(n: nat, j: nat, k: nat)
    requires j <= k
    ensures Times(n, j) <= Times(n, k)
  {
    if n == 0 {
    } else {
      TimesMonotone(n - 1, j, k);
    }
  }

  /** The kernel's decision on the lane's single, intrinsic, non-LLM verifier result. */
  function KernelDecision(id: string, outcome: Decision.VerifierOutcome, trusted: bool, now: int): StatusDecision {
    Decision.DecideStatus(
      Decision.Claim(id, Mechanical, None),
      [Decision.VerifierResult(Decision.Deterministic, outcome, false, Decision.Unknown, false, trusted, true)],
      [], now, Decision.DEFAULT_POLICY, OK)
  }

  lemma KernelMaps(id: string, outcome: Decision.VerifierOutcome, trusted: bool, now: int)
    ensures KernelDecision(id, outcome, trusted, now).status ==
            if trusted && outcome.Passes? then Verified
            else if trusted && outcome.Fails? then Refuted
            else Unverified
  {
    var vr := Decision.VerifierResult(Decision.Deterministic, outcome, false, Decision.Unknown, false, trusted, true);
    var vs := [vr];
    assert vr in vs && forall v :: v in vs ==> v == vr;
    Decision.StatusFromSignals(Decision.Claim(id, Mechanical, None), vs, [], now, Decision.DEFAULT_POLICY, OK);
    assert Decision.TrustedKeys([], Decision.DEFAULT_POLICY) == {};
  }

  /** The status of a claim is its answer, provided the binding of formula to claim is trusted. */
  method VerifyLogicClaim(c: LogicClaim, trusted: bool, now: int)
    returns (status: EvidenceStatus, definitive: bool, counterexample: Option<Env>)
    ensures status == if !trusted then Unverified
                      else match Answer(c) case Pass => Verified case Fail => Refuted case Abstain => Unverified
    ensures definitive <==> status.Verified? || status.Refuted?
    ensures counterexample.Some? ==> trusted && Answer(c) == Fail && Refutes(c, counterexample.value)
    ensures status.Refuted? && !c.mode.Satisfiable? ==> counterexample.Some?
  {
    var verdict := Abstain;
    counterexample := None;
    var shape := CheckShape(Submitted(c));
    if shape.Ok? {
      var r;
      ghost var visits;
      r, counterexample, visits := Decide(c, shape.value);
      verdict := if r.Ok? then r.value else Abstain;
    }
    var outcome :=
      if verdict.Abstain? || !trusted then Decision.Inconclusive
      else if verdict.Pass? then Decision.Passes
      else Decision.Fails;
    KernelMaps(c.id, outcome, trusted, now);
    status := KernelDecision(c.id, outcome, trusted, now).status;
    definitive := status.Verified? || status.Refuted?;
    if !verdict.Fail? || !trusted {
      counterexample := None;
    }
  }
}
