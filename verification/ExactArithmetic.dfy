/**
 Bounded exact evaluation of arithmetic relations: glass_ionomer/verify/safe_arith.py. Values are tracked
 with the Python type that holds them; a value that would be a float leaves the model.
*/
module ExactArithmetic {
  import opened Wrappers
  import opened Numbers

  const MAX_NODES := 200
  const MAX_DEPTH := 25
  const MAX_ABS_OPERAND := 1000000000000000.0
  const MAX_POW_EXPONENT := 64.0

  datatype UnaryOp = Plus | Minus | OtherUnary

  datatype BinaryOp = Add | Sub | Mult | Div | FloorDiv | Mod | Pow | OtherBinary

  datatype CompareOp = Eq | NotEq | Lt | Gt | LtE | GtE | OtherCompare

  /** Parsed operands; a literal carries the rational that Python makes of it. */
  datatype Expr =
    | Literal(value: real)
    | Name(id: string)
    | Unary(op: UnaryOp, operand: Expr)
    | Binary(bop: BinaryOp, left: Expr, right: Expr)
    | OtherNode(children: seq<Expr>)

  /** `left op[0] rest[0] op[1] rest[1] ...` */
  datatype Relation = Relation(left: Expr, ops: seq<CompareOp>, rest: seq<Expr>)

  // ----- Size limits -----

  /** Syntax nodes, operator nodes and name contexts included. */
  function Nodes(e: Expr): (n: nat)
    ensures n >= 1
    decreases e, 1
  {
    match e
    case Literal(_) => 1
    case Name(_) => 2
    case Unary(_, operand) => 2 + Nodes(operand)
    case Binary(_, left, right) => 2 + Nodes(left) + Nodes(right)
    case OtherNode(children) => 1 + AllNodes(children)
  }

  function AllNodes(es: seq<Expr>): nat
    decreases es, 0
  {
    if es == [] then 0 else Nodes(es[0]) + AllNodes(es[1..])
  }

  function Depth(e: Expr): nat
    decreases e, 1
  {
    match e
    case Literal(_) => 0
    case Name(_) => 1
    case Unary(_, operand) => 1 + Depth(operand)
    case Binary(_, left, right) => 1 + Max(Depth(left), Depth(right))
    case OtherNode(children) => AllDepth(children)
  }

  /** Depth of the deepest of the given children, seen from their parent. */
  function AllDepth(es: seq<Expr>): nat
    decreases es, 0
  {
    if es == [] then 0 else Max(1 + Depth(es[0]), AllDepth(es[1..]))
  }

  /** The counting walk: the nodes seen so far go in, and come out or the walk has raised. */
  method Walk(e: Expr, depth: nat, nodes0: nat) returns (r: Result<nat>)
    requires nodes0 <= MAX_NODES
    ensures r == if nodes0 + Nodes(e) <= MAX_NODES && depth + Depth(e) <= MAX_DEPTH then Ok(nodes0 + Nodes(e)) else Raised
    decreases e, 1
  {
    var nodes := nodes0 + 1;
    if nodes > MAX_NODES || depth > MAX_DEPTH {
      return Raised;
    }
    match e
    case Literal(_) => return Ok(nodes);
    case Name(_) => return WalkLeaf(depth + 1, nodes);
    case Unary(_, operand) =>
      var op := WalkLeaf(depth + 1, nodes);
      if op.Raised? {
        return Raised;
      }
      r := Walk(operand, depth + 1, op.value);
    case Binary(_, left, right) =>
      r := Walk(left, depth + 1, nodes);
      if r.Raised? {
        return;
      }
      r := WalkLeaf(depth + 1, r.value);
      if r.Raised? {
        return;
      }
      r := Walk(right, depth + 1, r.value);
    case OtherNode(children) =>
      r := WalkAll(children, depth, nodes);
  }

  /** An operator or context node, which has no children. */
  function WalkLeaf(depth: nat, nodes: nat): Result<nat> {
    if nodes + 1 > MAX_NODES || depth > MAX_DEPTH then Raised else Ok(nodes + 1)
  }

  method WalkAll(es: seq<Expr>, depth: nat, nodes0: nat) returns (r: Result<nat>)
    requires nodes0 <= MAX_NODES && depth <= MAX_DEPTH
    ensures r == if nodes0 + AllNodes(es) <= MAX_NODES && depth + AllDepth(es) <= MAX_DEPTH
                 then Ok(nodes0 + AllNodes(es)) else Raised
    decreases es, 0
  {
    if es == [] {
      return Ok(nodes0);
    }
    r := Walk(es[0], depth + 1, nodes0);
    if r.Ok? {
      r := WalkAll(es[1..], depth, r.value);
    }
  }

  // ----- Values -----

  /** Python's `int` and `Fraction`. */
  datatype Kind = Int | Frac

  datatype Num = Num(kind: Kind, value: real)

  /** Inexact: a float arose, and what follows is not modelled. */
  datatype Outcome = Exact(num: Num) | Fails | Inexact

  predicate WithinCap(x: real) {
    -MAX_ABS_OPERAND <= x <= MAX_ABS_OPERAND
  }

  function Bound(kind: Kind, value: real): Outcome {
    if WithinCap(value) then Exact(Num(kind, value)) else Fails
  }

  function PowNat(x: real, n: nat): real {
    if n == 0 then 1.0 else x * PowNat(x, n - 1)
  }

  lemma {:induction false} PowIsNonzero(x: real, n: nat)
    requires x != 0.0
    ensures PowNat(x, n) != 0.0
  {
    if n == 0 {
    } else {
      PowIsNonzero(x, n - 1);
    }
  }

  /** Python's `%`: the sign of the divisor. */
  function Remainder(a: real, b: real): real
    requires b != 0.0
  {
    a - b * ((a / b).Floor as real)
  }

  /** The rational an operator yields, where it yields one: no division by zero, only whole exponents. */
  function Apply(op: BinaryOp, a: real, b: real): Option<real> {
    match op
    case Add => Some(a + b)
    case Sub => Some(a - b)
    case Mult => Some(a * b)
    case Div => if b == 0.0 then None else Some(a / b)
    case FloorDiv => if b == 0.0 then None else Some((a / b).Floor as real)
    case Mod => if b == 0.0 then None else Some(Remainder(a, b))
    case Pow =>
      if !IsWhole(b) then None
      else if b >= 0.0 then Some(PowNat(a, b.Floor))
      else if a == 0.0 then None
      else
        PowIsNonzero(a, (-b).Floor);
        Some(1.0 / PowNat(a, (-b).Floor))
    case OtherBinary => None
  }

  /** The two operations of Python integers that yield a float. */
  predicate YieldsFloat(op: BinaryOp, a: Num, b: Num) {
    a.kind.Int? && b.kind.Int? && (op.Div? || (op.Pow? && b.value < 0.0))
  }

  /** The type Python gives the exact result. */
  function ResultKind(op: BinaryOp, a: Num, b: Num): Kind {
    match op
    case FloorDiv => Int
    case Pow => if a.kind.Int? && b.value >= 0.0 then Int else Frac
    case _ => if a.kind.Int? && b.kind.Int? then Int else Frac
  }

  function ApplyNum(op: BinaryOp, a: Num, b: Num): Outcome {
    if op.Pow? && !(-MAX_POW_EXPONENT <= b.value <= MAX_POW_EXPONENT) then Fails
    else
      match Apply(op, a.value, b.value)
      case None => Fails
      case Some(x) => if YieldsFloat(op, a, b) then Inexact else Bound(ResultKind(op, a, b), x)
  }

  /** The left operand is evaluated first, so its failure comes first. */
  function Combine(op: BinaryOp, left: Outcome, right: Outcome): Outcome {
    match left
    case Exact(a) =>
      (match right
       case Exact(b) => ApplyNum(op, a, b)
       case other => other)
    case other => other
  }

  /** `_numeric` on a relation's operand. */
  function Numeric(e: Expr): Outcome {
    match e
    case Literal(value) => Bound(Frac, value)
    case Name(_) => Fails
    case Unary(op, operand) =>
      if op.OtherUnary? then Fails
      else
        (match Numeric(operand)
         case Exact(v) => Bound(v.kind, if op.Minus? then -v.value else v.value)
         case other => other)
    case Binary(op, left, right) =>
      if op.OtherBinary? then Fails
      else
        Combine(op, Numeric(left), Numeric(right))
    case OtherNode(_) => Fails
  }

  /** What an expression means over the rationals, with no limits and no types. */
  function Meaning(e: Expr): Option<real> {
    match e
    case Literal(value) => Some(value)
    case Name(_) => None
    case Unary(op, operand) =>
      var v := Meaning(operand);
      if v.None? || op.OtherUnary? then None else if op.Minus? then Some(-v.value) else v
    case Binary(op, left, right) =>
      var a, b := Meaning(left), Meaning(right);
      if a.None? || b.None? then None else Apply(op, a.value, b.value)
    case OtherNode(_) => None
  }

  /** The expression and all its parts stay within the cap, and exponents within theirs. */
  predicate Bounded(e: Expr) {
    && Meaning(e).Some? && WithinCap(Meaning(e).value)
    && match e
       case Unary(_, operand) => Bounded(operand)
       case Binary(op, left, right) =>
         && Bounded(left) && Bounded(right)
         && (op.Pow? ==> -MAX_POW_EXPONENT <= Meaning(right).value <= MAX_POW_EXPONENT)
       case _ => true
  }

  /** Whenever evaluation is exact it yields the meaning, and it succeeds or leaves the model on all bounded expressions. */
  lemma {:induction false} NumericIsExact(e: Expr)
    ensures Numeric(e).Exact? ==> Bounded(e) && Meaning(e) == Some(Numeric(e).num.value)
    ensures Bounded(e) ==> !Numeric(e).Fails?
  {
    match e
    case Unary(_, operand) => NumericIsExact(operand);
    case Binary(_, left, right) =>
      NumericIsExact(left);
      NumericIsExact(right);
    case _ =>
  }

  /** The value is held as a Python int: floor division makes one, and operations on ints keep to them. */
  predicate HoldsInt(e: Expr) {
    match e
    case Unary(_, operand) => HoldsInt(operand)
    case Binary(op, left, right) =>
      if op.FloorDiv? then true
      else if op.Pow? then HoldsInt(left) && Meaning(right).Some? && Meaning(right).value >= 0.0
      else HoldsInt(left) && HoldsInt(right)
    case _ => false
  }

  /** No part divides an int by an int, or raises an int to a negative int. */
  predicate StaysExact(e: Expr) {
    match e
    case Unary(_, operand) => StaysExact(operand)
    case Binary(op, left, right) =>
      && StaysExact(left) && StaysExact(right)
      && (HoldsInt(left) && HoldsInt(right) ==>
            !op.Div? && (op.Pow? && Meaning(right).Some? ==> Meaning(right).value >= 0.0))
    case _ => true
  }

  /** The types of exact values can be read off the expression. */
  lemma {:induction false} KindIsHeld(e: Expr)
    ensures Numeric(e).Exact? ==> (Numeric(e).num.kind.Int? <==> HoldsInt(e))
  {
    match e
    case Unary(_, operand) => KindIsHeld(operand);
    case Binary(_, left, right) =>
      KindIsHeld(left);
      KindIsHeld(right);
      NumericIsExact(right);
    case _ =>
  }

  /** Evaluation is exact exactly on the bounded expressions that stay exact, and floats arise only off the latter. */
  lemma {:induction false} ExactExactly(e: Expr)
    ensures Numeric(e).Exact? <==> Bounded(e) && StaysExact(e)
    ensures Numeric(e).Inexact? ==> !StaysExact(e)
    ensures Numeric(e).Fails? ==> !Bounded(e)
    decreases e, 1
  {
    NumericIsExact(e);
    match e
    case Unary(_, operand) => ExactExactly(operand);
    case Binary(op, left, right) => BinaryExactly(op, left, right);
    case _ =>
  }

  lemma {:induction false} BinaryExactly(op: BinaryOp, left: Expr, right: Expr)
    ensures var e := Binary(op, left, right);
            && (Numeric(e).Exact? <==> Bounded(e) && StaysExact(e))
            && (Numeric(e).Inexact? ==> !StaysExact(e))
    decreases Binary(op, left, right), 0
  {
    ExactExactly(left);
    ExactExactly(right);
    NumericIsExact(left);
    NumericIsExact(right);
    KindIsHeld(left);
    KindIsHeld(right);
  }

  predicate HasFloorDiv(e: Expr) {
    match e
    case Unary(_, operand) => HasFloorDiv(operand)
    case Binary(op, left, right) => op.FloorDiv? || HasFloorDiv(left) || HasFloorDiv(right)
    case _ => false
  }

  /** Without floor division every value is a Fraction, and evaluation is exact on all bounded expressions. */
  lemma {:induction false} NoFloorDivNoInt(e: Expr)
    requires !HasFloorDiv(e)
    ensures !HoldsInt(e) && StaysExact(e)
  {
    match e
    case Unary(_, operand) => NoFloorDivNoInt(operand);
    case Binary(_, left, right) =>
      NoFloorDivNoInt(left);
      NoFloorDivNoInt(right);
    case _ =>
  }

  /** The exception is real: two floor divisions divided leave the exact domain, though one raised to the other does not. */
  lemma FloorDivisionsDivided()
    ensures var three := Binary(FloorDiv, Literal(7.0), Literal(2.0));
            Numeric(Binary(Div, three, three)) == Inexact && Numeric(Binary(Pow, three, three)) == Exact(Num(Int, 27.0))
  {
    assert (7.0 / 2.0).Floor == 3;
  }

  // ----- Relations -----

  predicate Compare(op: CompareOp, a: real, b: real) {
    match op
    case Eq => a == b
    case NotEq => a != b
    case Lt => a < b
    case Gt => a > b
    case LtE => a <= b
    case GtE => a >= b
    case OtherCompare => false
  }

  datatype Ruling = Decided(holds: bool) | Refused | LeftExactDomain

  function Operand(r: Relation, i: nat): Expr
    requires i <= |r.rest|
  {
    if i == 0 then r.left else r.rest[i - 1]
  }

  /** Adjacent comparison `i`, read over the rationals. */
  predicate HoldsAt(r: Relation, i: nat)
    requires i < |r.ops| == |r.rest|
  {
    && Meaning(Operand(r, i)).Some? && Meaning(Operand(r, i + 1)).Some?
    && Compare(r.ops[i], Meaning(Operand(r, i)).value, Meaning(Operand(r, i + 1)).value)
  }

  predicate Small(r: Relation) {
    && 2 + Nodes(r.left) + |r.ops| + AllNodes(r.rest) <= MAX_NODES
    && 1 + AllDepth([r.left] + r.rest) <= MAX_DEPTH
  }

  ghost predicate AllBounded(r: Relation)
    requires |r.ops| == |r.rest|
  {
    forall i :: 0 <= i <= |r.rest| ==> Bounded(Operand(r, i))
  }

  ghost predicate AllStayExact(r: Relation)
    requires |r.ops| == |r.rest|
  {
    forall i :: 0 <= i <= |r.rest| ==> StaysExact(Operand(r, i))
  }

  /** A comparison that is not supported and that no earlier failing one keeps from being made. */
  ghost predicate Unsupported(r: Relation, i: nat)
    requires i < |r.ops| == |r.rest|
  {
    r.ops[i].OtherCompare? && forall j :: 0 <= j < i ==> HoldsAt(r, j)
  }

  method EvaluateOperand(e: Expr) returns (v: Outcome)
    ensures v.Exact? <==> Bounded(e) && StaysExact(e)
    ensures v.Exact? ==> Meaning(e) == Some(v.num.value)
    ensures v.Fails? ==> !Bounded(e)
    ensures v.Inexact? ==> !StaysExact(e)
  {
    NumericIsExact(e);
    ExactExactly(e);
    v := Numeric(e);
  }

  /** `evaluate_relation` on a parsed comparison: every operand is evaluated, whatever has been decided so far. */
  method EvaluateRelation(r: Relation) returns (ruling: Ruling)
    requires |r.ops| == |r.rest| > 0
    ensures ruling.Decided? <==>
              Small(r) && AllBounded(r) && AllStayExact(r) && forall i :: 0 <= i < |r.ops| ==> !Unsupported(r, i)
    ensures ruling.Decided? ==> (ruling.holds <==> forall i :: 0 <= i < |r.ops| ==> HoldsAt(r, i))
    ensures ruling.Refused? ==> !Small(r) || !AllBounded(r) || exists i :: 0 <= i < |r.ops| && Unsupported(r, i)
    ensures ruling.LeftExactDomain? ==> Small(r) && !AllStayExact(r)
  {
    var within := CheckBounds(r);
    if !within {
      return Refused;
    }
    assert Operand(r, 0) == r.left;
    var left := EvaluateOperand(r.left);
    if !left.Exact? {
      return if left.Fails? then Refused else LeftExactDomain;
    }
    var ok := true;
    for i := 0 to |r.ops|
      invariant left.Exact? && Meaning(Operand(r, i)) == Some(left.num.value)
      invariant forall j :: 0 <= j <= i ==> Bounded(Operand(r, j)) && StaysExact(Operand(r, j))
      invariant forall j :: 0 <= j < i ==> !Unsupported(r, j)
      invariant ok <==> forall j :: 0 <= j < i ==> HoldsAt(r, j)
    {
      assert Operand(r, i + 1) == r.rest[i];
      var right := EvaluateOperand(r.rest[i]);
      if !right.Exact? {
        return if right.Fails? then Refused else LeftExactDomain;
      }
      if ok && r.ops[i].OtherCompare? {
        assert Unsupported(r, i);
        return Refused;
      }
      assert HoldsAt(r, i) <==> Compare(r.ops[i], left.num.value, right.num.value);
      ok := ok && Compare(r.ops[i], left.num.value, right.num.value);
      left := right;
    }
    return Decided(ok);
  }

  /** `check_arithmetic_bounds` on the whole comparison, root node first. */
  method CheckBounds(r: Relation) returns (within: bool)
    requires |r.ops| == |r.rest| > 0
    ensures within <==> Small(r)
  {
    var left := Walk(r.left, 2, 2);
    AllDepthSplits(r.left, r.rest);
    if left.Raised? || left.value + |r.ops| > MAX_NODES {
      return false;
    }
    var rest := WalkAll(r.rest, 1, left.value + |r.ops|);
    within := rest.Ok?;
  }

  lemma AllDepthSplits(e: Expr, es: seq<Expr>)
    ensures AllDepth([e] + es) == Max(1 + Depth(e), AllDepth(es))
  {
    assert ([e] + es)[1..] == es;
  }
}
