/**
 The tuple language of glass_ionomer/lanes/logic/verify.py: raw terms, their shape, the short-circuit
 evaluator, and the truth of a well-formed formula under a total valuation.
*/
module Formulas {
  import opened Numbers

  /** A raw operand: a tuple or list, a string, a boolean, None, or any other object. */
  datatype Term =
    | Items(items: seq<Term>)
    | Str(s: string)
    | Flag(b: bool)
    | Nothing
    | Other(truthy: bool)

  predicate IsExpr(t: Term) {
    t.Items? && t.items != []
  }

  predicate IsLeaf(t: Term)
    requires IsExpr(t)
  {
    t.items[0] == Str("const") || t.items[0] == Str("var")
  }

  /** What the shape check and the evaluator descend into. */
  function Operands(t: Term): seq<Term> {
    if IsExpr(t) && !IsLeaf(t) then t.items[1..] else []
  }

  /** The characters Python's `str.strip` removes. */
  predicate IsSpace(c: char) {
    var n := c as int;
    || 0x09 <= n <= 0x0D || 0x1C <= n <= 0x20 || n == 0x85 || n == 0xA0 || n == 0x1680
    || 0x2000 <= n <= 0x200A || n == 0x2028 || n == 0x2029 || n == 0x202F || n == 0x205F || n == 0x3000
  }

  /** Python's `name.strip()` is non-empty. */
  predicate IsName(t: Term) {
    t.Str? && exists i :: 0 <= i < |t.s| && !IsSpace(t.s[i])
  }

  /** The demands the shape check makes of one expression, its operands' own shape aside. */
  predicate ShapedHere(t: Term) {
    && IsExpr(t)
    && var op, n := t.items[0], |t.items|;
       if op == Str("const") then n == 2 && t.items[1].Flag?
       else if op == Str("var") then n == 2 && IsName(t.items[1])
       else if op == Str("not") then n == 2
       else if op == Str("imp") || op == Str("iff") || op == Str("xor") then n == 3
       else (op == Str("and") || op == Str("or")) && n >= 3
  }

  predicate WellFormed(t: Term) {
    ShapedHere(t) && (!IsLeaf(t) ==> forall i :: 1 <= i < |t.items| ==> WellFormed(t.items[i]))
  }

  /** Number of expressions in `t`. */
  function Size(t: Term): nat
    decreases t, 1
  {
    if IsExpr(t) && !IsLeaf(t) then 1 + Sizes(t.items[1..]) else 1
  }

  function Sizes(ts: seq<Term>): nat
    decreases ts, 0
  {
    if ts == [] then 0 else Size(ts[0]) + Sizes(ts[1..])
  }

  function Depth(t: Term): nat
    decreases t, 1
  {
    if IsExpr(t) && !IsLeaf(t) then 1 + Depths(t.items[1..]) else 1
  }

  function Depths(ts: seq<Term>): nat
    decreases ts, 0
  {
    if ts == [] then 0 else Max(Depth(ts[0]), Depths(ts[1..]))
  }

  function Vars(t: Term): set<string>
    decreases t, 1
  {
    if !IsExpr(t) then {}
    else if t.items[0] == Str("var") then
      if |t.items| > 1 && t.items[1].Str? then {t.items[1].s} else {}
    else if t.items[0] == Str("const") then {}
    else AllVars(t.items[1..])
  }

  function AllVars(ts: seq<Term>): set<string>
    decreases ts, 0
  {
    if ts == [] then {} else Vars(ts[0]) + AllVars(ts[1..])
  }

  type Valuation = string -> bool

  /** Truth of a well-formed formula: conjunction and disjunction are over all operands, with no order. */
  predicate Truth(t: Term, v: Valuation)
    requires WellFormed(t)
  {
    var op := t.items[0];
    if op == Str("const") then t.items[1].b
    else if op == Str("var") then v(t.items[1].s)
    else if op == Str("not") then !Truth(t.items[1], v)
    else if op == Str("and") then forall i :: 1 <= i < |t.items| ==> Truth(t.items[i], v)
    else if op == Str("or") then exists i :: 1 <= i < |t.items| && Truth(t.items[i], v)
    else if op == Str("imp") then Truth(t.items[1], v) ==> Truth(t.items[2], v)
    else if op == Str("iff") then Truth(t.items[1], v) <==> Truth(t.items[2], v)
    else Truth(t.items[1], v) != Truth(t.items[2], v)
  }
}
