/** The laws of the operators and comparisons of glass_ionomer/verify/safe_arith.py, and worked relations. */
module ArithmeticLaws {
  import opened Wrappers
  import opened Numbers
  import opened ExactArithmetic

  lemma ScaledFraction(b: real, y: real, r: real)
    requires 0.0 <= y < 1.0 && r == b * y
    ensures b > 0.0 ==> 0.0 <= r < b
    ensures b < 0.0 ==> b < r <= 0.0
  {
    if b > 0.0 {
      assert b * (1.0 - y) > 0.0 && b * y >= 0.0;
    } else if b < 0.0 {
      assert (-b) * (1.0 - y) > 0.0 && (-b) * y >= 0.0;
    }
  }

  lemma QuotientTimesDivisor(a: real, b: real)
    requires b != 0.0
    ensures (a / b) * b == a
  {
  }

  lemma PartOfProduct(a: real, b: real, x: real, q: real, r: real, y: real)
    requires x * b == a && r == a - b * q && y == x - q
    ensures r == b * y && a == q * b + r
  {
  }

  lemma RemainderLaw(a: real, b: real, q: real, r: real)
    requires b != 0.0 && q == (a / b).Floor as real && r == a - b * q
    ensures a == q * b + r
    ensures (b > 0.0 ==> 0.0 <= r < b) && (b < 0.0 ==> b < r <= 0.0)
  {
    var x := a / b;
    QuotientTimesDivisor(a, b);
    PartOfProduct(a, b, x, q, r, x - q);
    ScaledFraction(b, x - q, r);
  }

  /** Floor division and remainder: a whole quotient, and a remainder below the divisor with the divisor's sign. */
  lemma DivisionLaw(a: real, b: real, q: real, r: real)
    requires b != 0.0 && Apply(FloorDiv, a, b) == Some(q) && Apply(Mod, a, b) == Some(r)
    ensures IsWhole(q) && a == q * b + r
    ensures (b > 0.0 ==> 0.0 <= r < b) && (b < 0.0 ==> b < r <= 0.0)
  {
    assert r == Remainder(a, b) == a - b * q;
    RemainderLaw(a, b, q, r);
  }

  /** Sums, differences, products and quotients. */
  lemma FieldLaws(a: real, b: real)
    ensures Apply(Add, a, b) == Some(a + b) && Apply(Mult, a, b) == Some(a * b)
    ensures Apply(Sub, a, b).Some? && Apply(Sub, a, b).value + b == a
    ensures b != 0.0 ==> Apply(Div, a, b).Some? && Apply(Div, a, b).value * b == a
    ensures b != 0.0 ==> Apply(FloorDiv, a, b).Some? && Apply(Mod, a, b).Some?
    ensures Apply(Div, a, 0.0) == Apply(FloorDiv, a, 0.0) == Apply(Mod, a, 0.0) == None
  {
    if b != 0.0 {
      QuotientTimesDivisor(a, b);
    }
  }

  lemma Regrouped(x: real, y: real, z: real)
    ensures x * (y * z) == (x * y) * z
  {
  }

  lemma {:induction false} PowersAdd(x: real, m: nat, n: nat)
    ensures PowNat(x, m + n) == PowNat(x, m) * PowNat(x, n)
  {
    if m == 0 {
    } else {
      PowersAdd(x, m - 1, n);
      Regrouped(x, PowNat(x, m - 1), PowNat(x, n));
    }
  }

  /** Powers: whole exponents only, counting factors upwards from one and inverting below zero. */
  lemma PowerLaws(a: real, n: nat)
    ensures Apply(Pow, a, 0.0) == Some(1.0)
    ensures Apply(Pow, a, n as real).Some? && Apply(Pow, a, (n + 1) as real).Some?
    ensures Apply(Pow, a, (n + 1) as real).value == a * Apply(Pow, a, n as real).value
  {
    assert (n as real).Floor == n && ((n + 1) as real).Floor == n + 1;
  }

  lemma InversePower(a: real, n: nat)
    requires n > 0
    ensures a == 0.0 ==> Apply(Pow, a, -(n as real)) == None
    ensures a != 0.0 ==> Apply(Pow, a, -(n as real)).Some? && Apply(Pow, a, -(n as real)).value * PowNat(a, n) == 1.0
  {
    var b := -(n as real);
    assert b.Floor == 0 - n && (-b).Floor == n && IsWhole(b) && b < 0.0;
    if a != 0.0 {
      PowIsNonzero(a, n);
      assert Apply(Pow, a, b).value == 1.0 / PowNat(a, n);
    }
  }

  lemma FractionalPowerFails(a: real, b: real)
    requires !IsWhole(b)
    ensures Apply(Pow, a, b) == None
  {
  }

  /** The six comparisons. */
  lemma OrderLaws(a: real, b: real)
    ensures Compare(Eq, a, b) <==> a == b
    ensures Compare(Lt, a, b) <==> b - a > 0.0
    ensures Compare(NotEq, a, b) <==> !Compare(Eq, a, b)
    ensures Compare(Gt, a, b) <==> Compare(Lt, b, a)
    ensures Compare(LtE, a, b) <==> Compare(Lt, a, b) || Compare(Eq, a, b)
    ensures Compare(GtE, a, b) <==> Compare(Gt, a, b) || Compare(Eq, a, b)
  {
  }

  /** The limits on the size of a relation: 200 syntax nodes and 25 levels. */
  lemma SmallExactly(r: Relation)
    ensures Small(r) <==> 2 + Nodes(r.left) + |r.ops| + AllNodes(r.rest) <= 200 && 1 + AllDepth([r.left] + r.rest) <= 25
  {
  }

  /** The cap on magnitudes is 10 to the power of 15, and the cap is within it. */
  lemma CapExactly(x: real)
    ensures WithinCap(x) <==> -PowNat(10.0, 15) <= x <= PowNat(10.0, 15)
  {
    TenTo15();
  }

  /** Exponents go up to 64 and down to -64. */
  lemma ExponentsExactly(left: Expr, right: Expr)
    requires Bounded(left) && Bounded(right) && Meaning(left) == Some(1.0) && IsWhole(Meaning(right).value)
    ensures Bounded(Binary(Pow, left, right)) <==> -64.0 <= Meaning(right).value <= 64.0
  {
    var b := Meaning(right).value;
    OnesPower(if b >= 0.0 then b.Floor else (-b).Floor);
    assert WithinCap(1.0);
  }

  lemma {:induction false} OnesPower(n: nat)
    ensures PowNat(1.0, n) == 1.0
  {
    if n == 0 {
    } else {
      OnesPower(n - 1);
    }
  }

  lemma TenTo15()
    ensures PowNat(10.0, 15) == 1000000000000000.0
  {
    PowersAdd(10.0, 5, 5);
    PowersAdd(10.0, 10, 5);
    TenTo5();
  }

  lemma TenTo5()
    ensures PowNat(10.0, 5) == 100000.0
  {
    assert PowNat(10.0, 1) == 10.0;
    assert PowNat(10.0, 2) == 100.0;
    assert PowNat(10.0, 3) == 1000.0;
    assert PowNat(10.0, 4) == 10000.0;
  }

  /** Signs. */
  lemma SignLaws(e: Expr)
    requires Meaning(e).Some?
    ensures Meaning(Unary(Plus, e)) == Meaning(e)
    ensures Meaning(Unary(Minus, e)).Some? && Meaning(Unary(Minus, e)).value + Meaning(e).value == 0.0
    ensures Meaning(Unary(OtherUnary, e)) == None
  {
  }

  function Of(op: BinaryOp, a: real, b: real): Expr {
    Binary(op, Literal(a), Literal(b))
  }

  /** A tenth and two tenths make three tenths, one by ten is a tenth, and negative operands floor. */
  lemma WorkedRelations()
    ensures HoldsAt(Relation(Of(Add, 0.1, 0.2), [Eq], [Literal(0.3)]), 0)
    ensures HoldsAt(Relation(Of(Div, 1.0, 10.0), [Eq], [Literal(0.1)]), 0)
    ensures HoldsAt(Relation(Of(FloorDiv, -7.0, 2.0), [Eq], [Literal(-4.0)]), 0)
    ensures HoldsAt(Relation(Of(Mod, -7.0, 2.0), [Eq], [Literal(1.0)]), 0)
    ensures HoldsAt(Relation(Of(Mod, 7.0, -2.0), [Eq], [Literal(-1.0)]), 0)
    ensures !HoldsAt(Relation(Of(Div, 1.0, 10.0), [Gt], [Literal(0.1)]), 0)
  {
    assert (-7.0 / 2.0).Floor == -4;
    assert (7.0 / -2.0).Floor == -4;
  }

  /** A chain compares neighbours: the second of two comparisons is between its own operands. */
  lemma ChainsCompareNeighbours(a: real, b: real, c: real)
    ensures var r := Relation(Literal(a), [Lt, Lt], [Literal(b), Literal(c)]);
            (HoldsAt(r, 0) <==> a < b) && (HoldsAt(r, 1) <==> b < c)
  {
  }
}
