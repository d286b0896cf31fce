/** The short-circuit evaluator of glass_ionomer/lanes/logic/verify.py against truth under valuations. */
module Evaluation {
  import opened Wrappers
  import opened Formulas

  type Env = map<string, bool>

  /** Python's `bool(x)`. */
  predicate Truthy(t: Term) {
    match t
    case Items(items) => items != []
    case Str(s) => s != ""
    case Flag(b) => b
    case Nothing => false
    case Other(truthy) => truthy
  }

  /** Only None, False, what is empty, and objects that say so are false. */
  lemma FalsyExactly(t: Term)
    ensures !Truthy(t) <==> t == Nothing || t == Flag(false) || t == Str("") || t == Items([]) || t == Other(false)
  {
  }

  function Negate(r: Result<bool>): Result<bool> {
    match r
    case Ok(b) => Ok(!b)
    case Raised => Raised
  }

  /** `_eval`: an exception is the result Raised. */
  function Eval(t: Term, env: Env): Result<bool>
    decreases t, 1
  {
    if !IsExpr(t) then Raised
    else
      var op, n := t.items[0], |t.items|;
      if op == Str("const") then if n < 2 then Raised else Ok(Truthy(t.items[1]))
      else if op == Str("var") then
        if n < 2 || !t.items[1].Str? || t.items[1].s !in env then Raised else Ok(env[t.items[1].s])
      else if op == Str("not") then if n < 2 then Raised else Negate(Eval(t.items[1], env))
      else if op == Str("and") then EvalAll(t.items[1..], env)
      else if op == Str("or") then EvalAny(t.items[1..], env)
      else if op == Str("imp") then
        if n < 2 then Raised
        else
          var a := Eval(t.items[1], env);
          if a != Ok(true) then Negate(a)
          else if n < 3 then Raised
          else Eval(t.items[2], env)
      else if op == Str("iff") || op == Str("xor") then
        if n < 3 then Raised
        else
          var a, b := Eval(t.items[1], env), Eval(t.items[2], env);
          if a.Raised? || b.Raised? then Raised
          else Ok(if op == Str("iff") then a.value == b.value else a.value != b.value)
      else Raised
  }

  /** Python's `all` over a generator: stops at the first false or raising operand. */
  function EvalAll(ts: seq<Term>, env: Env): Result<bool>
    decreases ts, 0
  {
    if ts == [] then Ok(true)
    else
      var r := Eval(ts[0], env);
      if r != Ok(true) then r else EvalAll(ts[1..], env)
  }

  /** Python's `any` over a generator: stops at the first true or raising operand. */
  function EvalAny(ts: seq<Term>, env: Env): Result<bool>
    decreases ts, 0
  {
    if ts == [] then Ok(false)
    else
      var r := Eval(ts[0], env);
      if r != Ok(false) then r else EvalAny(ts[1..], env)
  }

  /** How many calls of `_eval` an evaluation makes. */
  function Visits(t: Term, env: Env): nat
    decreases t, 1
  {
    if !IsExpr(t) || IsLeaf(t) then 1
    else
      var op, n := t.items[0], |t.items|;
      if op == Str("and") then 1 + VisitsUntil(t.items[1..], env, false)
      else if op == Str("or") then 1 + VisitsUntil(t.items[1..], env, true)
      else if op == Str("not") then if n < 2 then 1 else 1 + Visits(t.items[1], env)
      else if op == Str("imp") then
        if n < 2 then 1
        else 1 + Visits(t.items[1], env) + (if Eval(t.items[1], env) == Ok(true) && n > 2 then Visits(t.items[2], env) else 0)
      else if op == Str("iff") || op == Str("xor") then
        if n < 2 then 1
        else 1 + Visits(t.items[1], env) + (if Eval(t.items[1], env).Ok? && n > 2 then Visits(t.items[2], env) else 0)
      else 1
  }

  function VisitsUntil(ts: seq<Term>, env: Env, stop: bool): nat
    decreases ts, 0
  {
    if ts == [] then 0
    else Visits(ts[0], env) + (if Eval(ts[0], env) == Ok(!stop) then VisitsUntil(ts[1..], env, stop) else 0)
  }

  /** `_eval` as it runs, counting its calls. */
  method Evaluate(t: Term, env: Env) returns (r: Result<bool>, ghost calls: nat)
    ensures r == Eval(t, env) && calls == Visits(t, env)
    decreases t, 1
  {
    calls := 1;
    if !IsExpr(t) {
      return Raised, calls;
    }
    var op, n := t.items[0], |t.items|;
    if op == Str("const") {
      return if n < 2 then Raised else Ok(Truthy(t.items[1])), calls;
    }
    if op == Str("var") {
      return if n < 2 || !t.items[1].Str? || t.items[1].s !in env then Raised else Ok(env[t.items[1].s]), calls;
    }
    if op == Str("and") || op == Str("or") {
      ghost var more;
      r, more := EvaluateUntil(t.items[1..], env, op == Str("or"));
      return r, calls + more;
    }
    if op != Str("not") && op != Str("imp") && op != Str("iff") && op != Str("xor") {
      return Raised, calls;
    }
    if n < 2 {
      return Raised, calls;
    }
    var a;
    ghost var more;
    a, more := Evaluate(t.items[1], env);
    calls := calls + more;
    if op == Str("not") {
      return Negate(a), calls;
    }
    if a.Raised? || (op == Str("imp") && !a.value) {
      return Negate(a), calls;
    }
    if n < 3 {
      return Raised, calls;
    }
    var b;
    b, more := Evaluate(t.items[2], env);
    calls := calls + more;
    if op == Str("imp") || b.Raised? {
      return b, calls;
    }
    r := Ok(if op == Str("iff") then a.value == b.value else a.value != b.value);
  }

  /** Python's `all` and `any`: stops at the first operand that is `stop` or raises. */
  method EvaluateUntil(ts: seq<Term>, env: Env, stop: bool) returns (r: Result<bool>, ghost calls: nat)
    ensures r == (if stop then EvalAny(ts, env) else EvalAll(ts, env)) && calls == VisitsUntil(ts, env, stop)
    decreases ts, 0
  {
    calls := 0;
    assert ts[0..] == ts;
    for i := 0 to |ts|
      invariant EvalAll(ts, env) == EvalAll(ts[i..], env) || stop
      invariant EvalAny(ts, env) == EvalAny(ts[i..], env) || !stop
      invariant VisitsUntil(ts, env, stop) == calls + VisitsUntil(ts[i..], env, stop)
    {
      assert ts[i..][0] == ts[i] && ts[i..][1..] == ts[i + 1..];
      var holds;
      ghost var more;
      holds, more := Evaluate(ts[i], env);
      calls := calls + more;
      if holds.Raised? || holds.value == stop {
        return holds, calls;
      }
    }
    r := Ok(!stop);
  }

  ghost predicate Extends(v: Valuation, env: Env) {
    forall x :: x in env ==> v(x) == env[x]
  }

  ghost predicate AllWellFormed(ts: seq<Term>) {
    forall i :: 0 <= i < |ts| ==> WellFormed(ts[i])
  }

  /**
   Whatever the evaluator returns under a partial environment, possibly without looking at every operand,
   is the truth under every valuation that extends the environment.
  */
  lemma {:induction false} EvalIsSound(t: Term, env: Env, v: Valuation)
    requires WellFormed(t) && Eval(t, env).Ok? && Extends(v, env)
    ensures Truth(t, v) == Eval(t, env).value
    decreases t, 1
  {
    var op := t.items[0];
    if !IsLeaf(t) {
      if op == Str("and") {
        EvalAllIsSound(t.items[1..], env, v);
      } else if op == Str("or") {
        EvalAnyIsSound(t.items[1..], env, v);
      } else {
        if Eval(t.items[1], env).Ok? {
          EvalIsSound(t.items[1], env, v);
        }
        if op != Str("not") && Eval(t.items[2], env).Ok? {
          EvalIsSound(t.items[2], env, v);
        }
      }
    }
  }

  lemma {:induction false} EvalAllIsSound(ts: seq<Term>, env: Env, v: Valuation)
    requires AllWellFormed(ts) && EvalAll(ts, env).Ok? && Extends(v, env)
    ensures EvalAll(ts, env).value <==> forall i :: 0 <= i < |ts| ==> Truth(ts[i], v)
    decreases ts, 0
  {
    if ts == [] {
    } else {
      EvalIsSound(ts[0], env, v);
      if Eval(ts[0], env) == Ok(true) {
        EvalAllIsSound(ts[1..], env, v);
        assert forall i :: 1 <= i < |ts| ==> ts[i] == ts[1..][i - 1];
      }
    }
  }

  lemma {:induction false} EvalAnyIsSound(ts: seq<Term>, env: Env, v: Valuation)
    requires AllWellFormed(ts) && EvalAny(ts, env).Ok? && Extends(v, env)
    ensures EvalAny(ts, env).value <==> exists i :: 0 <= i < |ts| && Truth(ts[i], v)
    decreases ts, 0
  {
    if ts == [] {
    } else {
      EvalIsSound(ts[0], env, v);
      if Eval(ts[0], env) == Ok(false) {
        EvalAnyIsSound(ts[1..], env, v);
        assert forall i :: 1 <= i < |ts| ==> ts[i] == ts[1..][i - 1];
      }
    }
  }

  /** With all its variables bound, a well-formed formula never makes the evaluator raise. */
  lemma {:induction false} EvalIsTotal(t: Term, env: Env)
    requires WellFormed(t) && Vars(t) <= env.Keys
    ensures Eval(t, env).Ok?
    decreases t, 1
  {
    var op := t.items[0];
    if !IsLeaf(t) {
      AllTotal(t.items[1..], env);
      assert forall i :: 1 <= i < |t.items| ==> t.items[i] == t.items[1..][i - 1];
    }
  }

  lemma {:induction false} AllTotal(ts: seq<Term>, env: Env)
    requires AllWellFormed(ts) && AllVars(ts) <= env.Keys
    ensures forall i :: 0 <= i < |ts| ==> Eval(ts[i], env).Ok?
    ensures EvalAll(ts, env).Ok? && EvalAny(ts, env).Ok?
    decreases ts, 0
  {
    if ts == [] {
    } else {
      EvalIsTotal(ts[0], env);
      AllTotal(ts[1..], env);
      assert forall i :: 1 <= i < |ts| ==> ts[i] == ts[1..][i - 1];
    }
  }

  /** No evaluation visits more expressions than the formula has. */
  lemma {:induction false} VisitsAtMostSize(t: Term, env: Env)
    requires WellFormed(t)
    ensures Visits(t, env) <= Size(t)
    decreases t, 1
  {
    if !IsLeaf(t) {
      var op := t.items[0];
      if op == Str("and") || op == Str("or") {
        VisitsUntilAtMostSizes(t.items[1..], env, op == Str("or"));
      } else {
        SizesOfOperands(t);
        VisitsAtMostSize(t.items[1], env);
        if op != Str("not") {
          VisitsAtMostSize(t.items[2], env);
        }
      }
    }
  }

  lemma {:induction false} SizesOfOperands(t: Term)
    requires WellFormed(t) && !IsLeaf(t) && |t.items| <= 3
    ensures Size(t) == 1 + Size(t.items[1]) + (if |t.items| == 3 then Size(t.items[2]) else 0)
  {
    var ts := t.items[1..];
    assert ts[0] == t.items[1];
    assert Sizes(ts) == Size(ts[0]) + Sizes(ts[1..]);
    if |t.items| == 3 {
      assert ts[1..] == [t.items[2]] && ts[1..][1..] == [];
      assert Sizes(ts[1..]) == Size(t.items[2]) + Sizes([]);
    } else {
      assert ts[1..] == [];
    }
  }

  lemma {:induction false} VisitsUntilAtMostSizes(ts: seq<Term>, env: Env, stop: bool)
    requires AllWellFormed(ts)
    ensures VisitsUntil(ts, env, stop) <= Sizes(ts)
    decreases ts, 0
  {
    if ts == [] {
    } else {
      VisitsAtMostSize(ts[0], env);
      VisitsUntilAtMostSizes(ts[1..], env, stop);
    }
  }

  ghost predicate AgreeOn(v: Valuation, w: Valuation, xs: set<string>) {
    forall x :: x in xs ==> v(x) == w(x)
  }

  /** Only a formula's own variables matter to its truth. */
  lemma TruthDependsOnVars(t: Term, v: Valuation, w: Valuation)
    requires WellFormed(t) && AgreeOn(v, w, Vars(t))
    ensures Truth(t, v) == Truth(t, w)
  {
    var env := map x | x in Vars(t) :: v(x);
    EvalIsTotal(t, env);
    EvalIsSound(t, env, v);
    EvalIsSound(t, env, w);
  }
}
