/** The formulas that raw tuples spell, and what they mean: an abstract syntax for glass_ionomer/lanes/logic/verify.py. */
module LogicSyntax {
  import opened Formulas

  datatype Formula =
    | Const(b: bool)
    | Var(name: string)
    | Neg(f: Formula)
    | Conj(fs: seq<Formula>)
    | Disj(fs: seq<Formula>)
    | Imp(left: Formula, right: Formula)
    | Iff(left: Formula, right: Formula)
    | Xor(left: Formula, right: Formula)

  predicate IsBlank(s: string) {
    forall i :: 0 <= i < |s| ==> IsSpace(s[i])
  }

  /** Names are not blank, and conjunctions and disjunctions have at least two operands. */
  predicate IsProper(f: Formula) {
    match f
    case Const(_) => true
    case Var(name) => !IsBlank(name)
    case Neg(g) => IsProper(g)
    case Conj(fs) => |fs| >= 2 && forall g :: g in fs ==> IsProper(g)
    case Disj(fs) => |fs| >= 2 && forall g :: g in fs ==> IsProper(g)
    case Imp(l, r) => IsProper(l) && IsProper(r)
    case Iff(l, r) => IsProper(l) && IsProper(r)
    case Xor(l, r) => IsProper(l) && IsProper(r)
  }

  /** The tuple that spells a formula. */
  function Spell(f: Formula): Term
    decreases f, 1
  {
    match f
    case Const(b) => Items([Str("const"), Flag(b)])
    case Var(name) => Items([Str("var"), Str(name)])
    case Neg(g) => Items([Str("not"), Spell(g)])
    case Conj(fs) => Items([Str("and")] + SpellAll(fs))
    case Disj(fs) => Items([Str("or")] + SpellAll(fs))
    case Imp(l, r) => Items([Str("imp"), Spell(l), Spell(r)])
    case Iff(l, r) => Items([Str("iff"), Spell(l), Spell(r)])
    case Xor(l, r) => Items([Str("xor"), Spell(l), Spell(r)])
  }

  function SpellAll(fs: seq<Formula>): (ts: seq<Term>)
    ensures |ts| == |fs| && forall i :: 0 <= i < |fs| ==> ts[i] == Spell(fs[i])
    decreases fs, 0
  {
    if fs == [] then [] else [Spell(fs[0])] + SpellAll(fs[1..])
  }

  predicate Holds(f: Formula, v: Valuation) {
    match f
    case Const(b) => b
    case Var(name) => v(name)
    case Neg(g) => !Holds(g, v)
    case Conj(fs) => forall g :: g in fs ==> Holds(g, v)
    case Disj(fs) => exists g :: g in fs && Holds(g, v)
    case Imp(l, r) => !Holds(l, v) || Holds(r, v)
    case Iff(l, r) => Holds(l, v) == Holds(r, v)
    case Xor(l, r) => Holds(l, v) != Holds(r, v)
  }

  /** The spelling of a proper formula is accepted, and it is true where the formula holds. */
  lemma {:induction false} SpellingMeans(f: Formula, v: Valuation)
    requires IsProper(f)
    ensures WellFormed(Spell(f)) && Truth(Spell(f), v) == Holds(f, v)
    decreases f, 2
  {
    match f
    case Const(_) =>
    case Var(_) =>
    case Neg(g) => SpellingMeans(g, v);
    case Conj(fs) => ManyMean(f, fs, v);
    case Disj(fs) => ManyMean(f, fs, v);
    case Imp(l, r) => BothMean(f, l, r, v);
    case Iff(l, r) => BothMean(f, l, r, v);
    case Xor(l, r) => BothMean(f, l, r, v);
  }

  lemma {:induction false} ManyMean(whole: Formula, fs: seq<Formula>, v: Valuation)
    requires IsProper(whole) && (whole == Conj(fs) || whole == Disj(fs))
    ensures WellFormed(Spell(whole)) && Truth(Spell(whole), v) == Holds(whole, v)
    decreases whole, 1
  {
    SpellingsMean(whole, fs, v);
    ManyShaped(if whole.Conj? then "and" else "or", SpellAll(fs));
    ManyTrue(Spell(whole), SpellAll(fs), Values(fs, v), v);
    ValuesDecide(fs, v);
  }

  lemma {:induction false} BothMean(whole: Formula, l: Formula, r: Formula, v: Valuation)
    requires l < whole && r < whole && IsProper(l) && IsProper(r)
    ensures WellFormed(Spell(l)) && Truth(Spell(l), v) == Holds(l, v)
    ensures WellFormed(Spell(r)) && Truth(Spell(r), v) == Holds(r, v)
    decreases whole, 0
  {
    SpellingMeans(l, v);
    SpellingMeans(r, v);
  }

  lemma {:induction false} SpellingsMean(whole: Formula, fs: seq<Formula>, v: Valuation)
    requires forall g :: g in fs ==> g < whole && IsProper(g)
    ensures forall i :: 0 <= i < |fs| ==> WellFormed(SpellAll(fs)[i]) && Truth(SpellAll(fs)[i], v) == Holds(fs[i], v)
    decreases whole, 0
  {
    forall i | 0 <= i < |fs|
      ensures WellFormed(SpellAll(fs)[i]) && Truth(SpellAll(fs)[i], v) == Holds(fs[i], v)
    {
      assert fs[i] in fs;
      SpellingMeans(fs[i], v);
    }
  }

  lemma TailItems(op: Term, ts: seq<Term>)
    ensures forall i :: 1 <= i < |ts| + 1 ==> ([op] + ts)[i] == ts[i - 1]
  {
  }

  lemma ManyShaped(op: string, ts: seq<Term>)
    requires (op == "and" || op == "or") && |ts| >= 2 && forall i :: 0 <= i < |ts| ==> WellFormed(ts[i])
    ensures WellFormed(Items([Str(op)] + ts))
  {
    TailItems(Str(op), ts);
  }

  /** A conjunction of tuples is true where each is, and a disjunction where one is. */
  lemma ManyTrue(t: Term, ts: seq<Term>, bs: seq<bool>, v: Valuation)
    requires WellFormed(t) && (t == Items([Str("and")] + ts) || t == Items([Str("or")] + ts))
    requires |ts| == |bs| && forall i :: 0 <= i < |ts| ==> WellFormed(ts[i]) && Truth(ts[i], v) == bs[i]
    ensures t.items[0] == Str("and") ==> (Truth(t, v) <==> false !in bs)
    ensures t.items[0] == Str("or") ==> (Truth(t, v) <==> true in bs)
  {
    forall i | 1 <= i < |t.items|
      ensures t.items[i] == ts[i - 1] && Truth(t.items[i], v) == bs[i - 1]
    {
    }
    forall i | 0 <= i < |bs|
      ensures Truth(t.items[i + 1], v) == bs[i]
    {
    }
  }

  ghost function Values(fs: seq<Formula>, v: Valuation): (bs: seq<bool>)
    ensures |bs| == |fs| && forall i :: 0 <= i < |fs| ==> bs[i] == Holds(fs[i], v)
  {
    seq(|fs|, i requires 0 <= i < |fs| => Holds(fs[i], v))
  }

  lemma ValuesDecide(fs: seq<Formula>, v: Valuation)
    ensures Holds(Conj(fs), v) <==> false !in Values(fs, v)
    ensures Holds(Disj(fs), v) <==> true in Values(fs, v)
  {
    var bs := Values(fs, v);
    forall g | g in fs
      ensures Holds(g, v) in bs
    {
      var i :| 0 <= i < |fs| && fs[i] == g;
      assert bs[i] == Holds(g, v);
    }
    forall b | b in bs
      ensures exists g :: g in fs && Holds(g, v) == b
    {
      var i :| 0 <= i < |bs| && bs[i] == b;
      assert fs[i] in fs && Holds(fs[i], v) == b;
    }
  }

  /** Whatever is accepted spells a proper formula. */
  lemma {:induction false} AcceptedIsSpelled(t: Term) returns (f: Formula)
    requires WellFormed(t)
    ensures IsProper(f) && Spell(f) == t
    decreases t, 1
  {
    var op := t.items[0];
    if op == Str("const") {
      f := Const(t.items[1].b);
    } else if op == Str("var") {
      f := Var(t.items[1].s);
    } else {
      var fs := AllSpelled(t.items[1..]);
      assert t.items == [op] + t.items[1..];
      if op == Str("and") {
        f := Conj(fs);
      } else if op == Str("or") {
        f := Disj(fs);
      } else if op == Str("not") {
        f := Neg(fs[0]);
        assert t.items == [op, t.items[1]];
      } else {
        f := if op == Str("imp") then Imp(fs[0], fs[1]) else if op == Str("iff") then Iff(fs[0], fs[1]) else Xor(fs[0], fs[1]);
        assert t.items == [op, t.items[1], t.items[2]];
      }
    }
  }

  lemma {:induction false} AllSpelled(ts: seq<Term>) returns (fs: seq<Formula>)
    requires forall i :: 0 <= i < |ts| ==> WellFormed(ts[i])
    ensures SpellAll(fs) == ts && forall g :: g in fs ==> IsProper(g)
    decreases ts, 0
  {
    if ts == [] {
      fs := [];
    } else {
      var f := AcceptedIsSpelled(ts[0]);
      var rest := AllSpelled(ts[1..]);
      fs := [f] + rest;
      assert fs[1..] == rest;
    }
  }

  /** The accepted tuples are exactly the spellings of proper formulas. */
  lemma AcceptedExactly(t: Term)
    ensures WellFormed(t) <==> exists f :: IsProper(f) && Spell(f) == t
  {
    if WellFormed(t) {
      var f := AcceptedIsSpelled(t);
    }
    if f :| IsProper(f) && Spell(f) == t {
      SpellingMeans(f, x => true);
    }
  }

  /** Blanks, tabs and line ends may surround a name but do not make one; letters and digits do. */
  lemma SpacesAndLetters(c: char)
    ensures c == ' ' || c == '\t' || c == '\n' || c == '\r' ==> IsSpace(c)
    ensures '!' <= c <= '~' ==> !IsSpace(c)
  {
    assert ' ' as int == 32 && '\t' as int == 9 && '\n' as int == 10 && '\r' as int == 13;
    assert '!' as int == 33 && '~' as int == 126;
  }
}
