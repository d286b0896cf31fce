/** The iterative shape check of glass_ionomer/lanes/logic/verify.py. */
module ShapeCheck {
  import opened Wrappers
  import opened Formulas

  const MAX_DEPTH := 512
  const MAX_NODES := 10000

  datatype Job = Job(expr: Term, depth: nat)

  function Given(exprs: seq<Term>): (r: seq<Term>)
    ensures forall t :: t in r <==> t in exprs && t != Nothing
  {
    if exprs == [] then []
    else if exprs[0] == Nothing then Given(exprs[1..])
    else [exprs[0]] + Given(exprs[1..])
  }

  /** What the shape check should accept: well-formed formulas, not too deep, not too large together. */
  ghost predicate Acceptable(exprs: seq<Term>) {
    && (forall t :: t in Given(exprs) ==> WellFormed(t) && Depth(t) <= MAX_DEPTH)
    && Sizes(Given(exprs)) <= MAX_NODES
  }

  function JobsAt(ts: seq<Term>, depth: nat): (r: seq<Job>)
    ensures |r| == |ts| && forall i :: 0 <= i < |ts| ==> r[i] == Job(ts[i], depth)
  {
    seq(|ts|, i requires 0 <= i < |ts| => Job(ts[i], depth))
  }

  function Work(stack: seq<Job>): nat {
    if stack == [] then 0 else Size(stack[0].expr) + Work(stack[1..])
  }

  ghost predicate JobOk(j: Job) {
    WellFormed(j.expr) && j.depth + Depth(j.expr) <= MAX_DEPTH + 1
  }

  lemma {:induction false} WorkOfConcat(a: seq<Job>, b: seq<Job>)
    ensures Work(a + b) == Work(a) + Work(b)
  {
    if a == [] {
      assert a + b == b;
    } else {
      WorkOfConcat(a[1..], b);
      assert (a + b)[1..] == a[1..] + b;
    }
  }

  lemma {:induction false} WorkOfJobs(ts: seq<Term>, depth: nat)
    ensures Work(JobsAt(ts, depth)) == Sizes(ts)
  {
    if ts == [] {
    } else {
      WorkOfJobs(ts[1..], depth);
      assert JobsAt(ts, depth)[1..] == JobsAt(ts[1..], depth);
    }
  }

  lemma {:induction false} DepthsBound(ts: seq<Term>, n: nat)
    ensures Depths(ts) <= n <==> forall i :: 0 <= i < |ts| ==> Depth(ts[i]) <= n
  {
    if ts == [] {
    } else {
      DepthsBound(ts[1..], n);
      assert forall i :: 1 <= i < |ts| ==> ts[i] == ts[1..][i - 1];
    }
  }

  /** A job is in order exactly when its expression is, and so are the jobs it is replaced by. */
  lemma JobUnfolds(j: Job)
    ensures JobOk(j) <==>
            ShapedHere(j.expr) && j.depth <= MAX_DEPTH
            && forall c :: c in JobsAt(Operands(j.expr), j.depth + 1) ==> JobOk(c)
    ensures Size(j.expr) == 1 + Work(JobsAt(Operands(j.expr), j.depth + 1))
  {
    var t := j.expr;
    var ts := Operands(t);
    var jobs := JobsAt(ts, j.depth + 1);
    WorkOfJobs(ts, j.depth + 1);
    DepthsBound(ts, if MAX_DEPTH >= j.depth then MAX_DEPTH - j.depth else 0);
    if ShapedHere(t) && !IsLeaf(t) {
      assert forall i :: 1 <= i < |t.items| ==> t.items[i] == ts[i - 1];
      assert forall i :: 0 <= i < |ts| ==> jobs[i].expr == ts[i];
      if JobOk(j) {
        forall c | c in jobs
          ensures JobOk(c)
        {
          var i :| 0 <= i < |jobs| && jobs[i] == c;
          assert c.expr == t.items[i + 1];
        }
      }
      if j.depth <= MAX_DEPTH && forall c :: c in jobs ==> JobOk(c) {
        forall i | 0 <= i < |ts|
          ensures WellFormed(ts[i]) && Depth(ts[i]) <= MAX_DEPTH - j.depth
        {
          assert jobs[i] in jobs;
        }
      }
    }
  }

  ghost predicate AllOk(stack: seq<Job>) {
    forall j :: j in stack ==> JobOk(j)
  }

  lemma Popped(stack: seq<Job>)
    requires stack != []
    ensures var top, rest := stack[|stack| - 1], stack[..|stack| - 1];
            var next := rest + JobsAt(Operands(top.expr), top.depth + 1);
            && Work(stack) == 1 + Work(next)
            && (AllOk(stack) <==> ShapedHere(top.expr) && top.depth <= MAX_DEPTH && AllOk(next))
  {
    var top, rest := stack[|stack| - 1], stack[..|stack| - 1];
    var jobs := JobsAt(Operands(top.expr), top.depth + 1);
    assert stack == rest + [top];
    WorkOfConcat(rest, [top]);
    WorkOfConcat(rest, jobs);
    JobUnfolds(top);
  }

  lemma Started(exprs: seq<Term>)
    ensures var stack := JobsAt(Given(exprs), 1);
            && Work(stack) == Sizes(Given(exprs))
            && (Acceptable(exprs) <==> AllOk(stack) && Work(stack) <= MAX_NODES)
  {
    var ts := Given(exprs);
    WorkOfJobs(ts, 1);
    var stack := JobsAt(ts, 1);
    forall t | t in ts
      ensures Job(t, 1) in stack
    {
      var i :| 0 <= i < |ts| && ts[i] == t;
      assert stack[i] == Job(t, 1);
    }
    assert forall j :: j in stack ==> j.depth == 1 && j.expr in ts;
  }

  /** Accepts exactly the acceptable formulas and counts their expressions. */
  method CheckShape(exprs: seq<Term>) returns (r: Result<nat>)
    ensures r.Ok? <==> Acceptable(exprs)
    ensures r.Ok? ==> r.value == Sizes(Given(exprs))
  {
    var stack := JobsAt(Given(exprs), 1);
    var nodes := 0;
    Started(exprs);
    while stack != []
      invariant nodes + Work(stack) == Sizes(Given(exprs)) && nodes <= MAX_NODES
      invariant Acceptable(exprs) <==> AllOk(stack) && nodes + Work(stack) <= MAX_NODES
      decreases Work(stack)
    {
      Popped(stack);
      var Job(expr, depth) := stack[|stack| - 1];
      stack := stack[..|stack| - 1];
      nodes := nodes + 1;
      if nodes > MAX_NODES || depth > MAX_DEPTH {
        return Raised;
      }
      if !ShapedHere(expr) || exists i :: 0 <= i < |Operands(expr)| && !IsExpr(Operands(expr)[i]) {
        UnshapedOperand(expr, depth);
        return Raised;
      }
      stack := stack + JobsAt(Operands(expr), depth + 1);
    }
    return Ok(nodes);
  }

  /** The early look at the operands rejects nothing that would not be rejected when popped. */
  lemma UnshapedOperand(t: Term, depth: nat)
    ensures (exists i :: 0 <= i < |Operands(t)| && !IsExpr(Operands(t)[i])) ==> !AllOk(JobsAt(Operands(t), depth + 1))
  {
    if i :| 0 <= i < |Operands(t)| && !IsExpr(Operands(t)[i]) {
      assert JobsAt(Operands(t), depth + 1)[i] in JobsAt(Operands(t), depth + 1);
    }
  }
}
