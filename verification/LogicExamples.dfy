/** When the logic lane abstains, and small entailments that pass and fail: glass_ionomer/lanes/logic/verify.py. */
module LogicExamples {
  import opened Numbers
  import opened Formulas
  import opened Evaluation
  import opened ShapeCheck
  import opened ModelSearch
  import opened LogicLane
  import opened LogicSyntax

  /** The tuples given are well-formed, at most 512 deep, and have at most 10000 nodes together. */
  lemma AcceptableExactly(exprs: seq<Term>)
    ensures Acceptable(exprs)
            <==> && (forall t :: t in exprs && t != Nothing ==> WellFormed(t) && Depth(t) <= 512)
                 && Sizes(Given(exprs)) <= 10000
  {
    assert forall t :: t in Given(exprs) <==> t in exprs && t != Nothing;
  }

  /** The enumeration of a claim over `vars`: at most 18 variables, and a million nodes over all assignments. */
  predicate IsAffordable(vars: set<string>, nodes: nat) {
    |vars| <= 18 && Pow2(|vars|) * Max(1, nodes) <= 1_000_000
  }

  /** An entailment is left open exactly where it is malformed, lacks a part, costs too much, or would be vacuous. */
  lemma EntailmentAbstainsExactly(c: LogicClaim)
    requires c.mode.Entailment?
    ensures Answer(c).Abstain?
            <==> || !Acceptable(Submitted(c)) || c.target == Nothing || Nothing in c.constraints
                 || !IsAffordable(AllVars(c.constraints) + Vars(c.target), Sizes(Given(Submitted(c))))
                 || (AllWellFormed(c.constraints) && !IsSatisfiable(c.constraints))
  {
    if Acceptable(Submitted(c)) {
      AcceptedAreWellFormed(c);
      if AllPresent(c.constraints) && c.target != Nothing && !IsSatisfiable(c.constraints) {
        assert !IsRefutable(c.constraints, c.target);
      }
    }
  }

  /** Satisfiability is left open exactly where the constraints are malformed, lack one, or cost too much. */
  lemma SatisfiabilityAbstainsExactly(c: LogicClaim)
    requires c.mode.Satisfiable? || c.mode.Unsatisfiable?
    ensures Answer(c).Abstain?
            <==> || !Acceptable(Submitted(c)) || Nothing in c.constraints
                 || !IsAffordable(AllVars(c.constraints), Sizes(Given(Submitted(c))))
  {
    if Acceptable(Submitted(c)) {
      AcceptedAreWellFormed(c);
    }
  }

  /** A model check is left open exactly where it is malformed or lacks a part, or an evaluation raises first. */
  lemma ModelCheckAbstainsExactly(c: LogicClaim)
    requires c.mode.ModelCheck?
    ensures Answer(c).Abstain?
            <==> !Acceptable(Submitted(c)) || c.model == map[] || c.constraints == [] || EvalAll(c.constraints, c.model).Raised?
  {
  }

  /** There are 2 to the power of |names| assignments. */
  lemma {:induction false} Pow2Adds(m: nat, n: nat)
    ensures Pow2(0) == 1 && Pow2(1) == 2 && Pow2(m + n) == Pow2(m) * Pow2(n)
  {
    if m == 0 {
    } else {
      Pow2Adds(m - 1, n);
      assert Pow2(m + n) == 2 * Pow2(m - 1 + n);
    }
  }

  // ----- Small entailments -----

  function P(): Formula {
    Var("p")
  }

  function Q(): Formula {
    Var("q")
  }

  /** The five ways to join two letters. */
  datatype Connective = AndOf | OrOf | ImpOf | IffOf | XorOf

  function Join(k: Connective): Formula {
    match k
    case AndOf => Conj([P(), Q()])
    case OrOf => Disj([P(), Q()])
    case ImpOf => Imp(P(), Q())
    case IffOf => Iff(P(), Q())
    case XorOf => Xor(P(), Q())
  }

  function Entails(id: string, premises: seq<Term>, target: Term): LogicClaim {
    LogicClaim(id, Entailment, premises, target, map[])
  }

  lemma LetterMeasures(name: string)
    ensures var t := Spell(Var(name));
            Size(t) == 1 && Depth(t) == 1 && Vars(t) == {name} && t != Nothing
  {
  }

  lemma JoinMeasures(k: Connective)
    ensures var t := Spell(Join(k));
            Size(t) == 3 && Depth(t) == 2 && Vars(t) == {"p", "q"} && t != Nothing
  {
    var p, q := Spell(P()), Spell(Q());
    LetterMeasures("p");
    LetterMeasures("q");
    JoinItems(k);
    var t := Spell(Join(k));
    assert t.items[1..] == [p, q] && [p, q][1..] == [q] && [q][1..] == [];
    assert Sizes([q]) == 1 && Depths([q]) == 1 && AllVars([q]) == {"q"};
    assert Sizes([p, q]) == 2 && Depths([p, q]) == 1 && AllVars([p, q]) == {"p"} + {"q"};
  }

  lemma JoinItems(k: Connective)
    ensures var t := Spell(Join(k));
            && t.Items? && |t.items| == 3 && t.items[1] == Spell(P()) && t.items[2] == Spell(Q())
            && t.items[0].Str? && t.items[0] != Str("const") && t.items[0] != Str("var")
  {
    assert [P(), Q()][1..] == [Q()] && [Q()][1..] == [];
    assert SpellAll([Q()]) == [Spell(Q())];
    assert SpellAll([P(), Q()]) == [Spell(P())] + SpellAll([Q()]);
  }

  lemma LettersAreProper(k: Connective)
    ensures IsProper(P()) && IsProper(Q()) && IsProper(Join(k))
  {
    SpacesAndLetters('p');
    SpacesAndLetters('q');
    assert !IsSpace("p"[0]) && !IsSpace("q"[0]);
    assert forall g :: g in [P(), Q()] ==> g == P() || g == Q();
  }

  lemma EntailmentAnswer(c: LogicClaim)
    requires c.mode.Entailment? && c.target != Nothing && AllPresent(c.constraints)
    requires Acceptable(Submitted(c)) && WithinBudget(AllVars(c.constraints) + Vars(c.target), Sizes(Given(Submitted(c))))
    ensures AllWellFormed(c.constraints) && WellFormed(c.target)
    ensures Answer(c) == if IsRefutable(c.constraints, c.target) then Fail
                         else if IsSatisfiable(c.constraints) then Pass else Abstain
  {
    AcceptedAreWellFormed(c);
  }

  /** Accepted on its own, with `n` nodes and at most two deep. */
  predicate IsShort(t: Term, n: nat) {
    WellFormed(t) && Size(t) == n && Depth(t) <= 2 && t != Nothing
  }

  lemma PairMeasures(x: Term, y: Term)
    ensures Sizes([x, y]) == Size(x) + Size(y) && AllVars([x, y]) == Vars(x) + Vars(y)
  {
    assert [x, y][1..] == [y] && [y][1..] == [];
    assert Sizes([y]) == Size(y) + Sizes([]) && AllVars([y]) == Vars(y) + AllVars([]);
  }

  lemma ShortIsAcceptable(ts: seq<Term>)
    requires Sizes(Given(ts)) <= 10
    requires forall t :: t in ts ==> WellFormed(t) && Depth(t) <= 2
    ensures Acceptable(ts)
  {
  }

  /** Two short premises and a short target over two letters are within every limit. */
  lemma SmallIsAffordable(id: string, x: Term, y: Term, z: Term)
    requires IsShort(x, 1) && IsShort(y, 3) && IsShort(z, 1) && Vars(x) + Vars(y) + Vars(z) == {"p", "q"}
    ensures var c := Entails(id, [x, y], z);
            && AllPresent(c.constraints) && Acceptable(Submitted(c)) && c.target != Nothing
            && WithinBudget(AllVars(c.constraints) + Vars(c.target), Sizes(Given(Submitted(c))))
  {
    var c := Entails(id, [x, y], z);
    PairMeasures(x, y);
    NodesOfSubmitted(c);
    ShortIsAcceptable(Submitted(c));
    TwoNames();
  }

  lemma TwoNames()
    ensures |{"p", "q"}| == 2 && Pow2(2) == 4
  {
    assert Pow2(1) == 2 && Pow2(2) == 2 * Pow2(1);
  }

  ghost predicate BothTrue(x: Term, y: Term, v: Valuation)
    requires WellFormed(x) && WellFormed(y)
  {
    Truth(x, v) && Truth(y, v)
  }

  lemma TwoPremiseAnswer(id: string, x: Term, y: Term, z: Term)
    requires IsShort(x, 1) && IsShort(y, 3) && IsShort(z, 1) && Vars(x) + Vars(y) + Vars(z) == {"p", "q"}
    ensures Answer(Entails(id, [x, y], z))
            == if (exists v :: BothTrue(x, y, v) && !Truth(z, v)) then Fail
               else if (exists v :: BothTrue(x, y, v)) then Pass
               else Abstain
  {
    SmallIsAffordable(id, x, y, z);
    EntailmentAnswer(Entails(id, [x, y], z));
    forall v
      ensures Models([x, y], v) <==> BothTrue(x, y, v)
    {
      TwoModel(x, y, v);
    }
  }

  lemma LetterIsShort(f: Formula)
    requires f == P() || f == Q()
    ensures IsShort(Spell(f), 1)
  {
    LettersAreProper(AndOf);
    SpellingMeans(f, x => true);
    LetterMeasures(f.name);
  }

  lemma JoinIsShort(k: Connective)
    ensures IsShort(Spell(Join(k)), 3)
  {
    LettersAreProper(k);
    SpellingMeans(Join(k), x => true);
    JoinMeasures(k);
  }

  lemma SmallVars(a: Formula, k: Connective, target: Formula)
    requires (a == P() || a == Q()) && (target == P() || target == Q())
    ensures Vars(Spell(a)) + Vars(Spell(Join(k))) + Vars(Spell(target)) == {"p", "q"}
  {
    LetterMeasures(a.name);
    LetterMeasures(target.name);
    JoinMeasures(k);
  }

  /** A premise and the joint, with a letter for target, are answered by what holds. */
  lemma SmallAnswer(id: string, a: Formula, k: Connective, target: Formula)
    requires (a == P() || a == Q()) && (target == P() || target == Q())
    ensures var c := Entails(id, [Spell(a), Spell(Join(k))], Spell(target));
            Answer(c) == if (exists v :: IsCase(a, k, v) && !Holds(target, v)) then Fail
                         else if (exists v :: IsCase(a, k, v)) then Pass
                         else Abstain
  {
    LetterIsShort(a);
    JoinIsShort(k);
    LetterIsShort(target);
    SmallVars(a, k, target);
    TwoPremiseAnswer(id, Spell(a), Spell(Join(k)), Spell(target));
    forall v
      ensures BothTrue(Spell(a), Spell(Join(k)), v) <==> IsCase(a, k, v)
      ensures Truth(Spell(target), v) == Holds(target, v)
    {
      SpelledCase(a, k, target, v);
    }
  }

  lemma SpelledCase(a: Formula, k: Connective, target: Formula, v: Valuation)
    requires (a == P() || a == Q()) && (target == P() || target == Q())
    ensures WellFormed(Spell(a)) && WellFormed(Spell(Join(k))) && WellFormed(Spell(target))
    ensures BothTrue(Spell(a), Spell(Join(k)), v) <==> IsCase(a, k, v)
    ensures Truth(Spell(target), v) == Holds(target, v)
  {
    LettersAreProper(k);
    SpellingMeans(a, v);
    SpellingMeans(Join(k), v);
    SpellingMeans(target, v);
  }

  ghost predicate IsCase(a: Formula, k: Connective, v: Valuation) {
    Holds(a, v) && Holds(Join(k), v)
  }

  lemma TwoModel(x: Term, y: Term, v: Valuation)
    requires WellFormed(x) && WellFormed(y)
    ensures AllWellFormed([x, y]) && (Models([x, y], v) <==> Truth(x, v) && Truth(y, v))
  {
    if Models([x, y], v) {
      assert Truth([x, y][0], v) && Truth([x, y][1], v);
    }
  }

  lemma JoinHolds(k: Connective, v: Valuation)
    ensures Holds(P(), v) == v("p") && Holds(Q(), v) == v("q")
    ensures Holds(Join(k), v) == match k
                                 case AndOf => v("p") && v("q")
                                 case OrOf => v("p") || v("q")
                                 case ImpOf => !v("p") || v("q")
                                 case IffOf => v("p") == v("q")
                                 case XorOf => v("p") != v("q")
  {
    var gs := [P(), Q()];
    assert gs[0] in gs && gs[1] in gs;
    assert forall g :: g in gs ==> g == P() || g == Q();
  }

  function Valuing(p: bool, q: bool): Valuation {
    x => if x == "p" then p else q
  }

  /** From "p" and a joint of the two, "q" follows for and, imp and iff, and does not for or and xor. */
  lemma Detaching(id: string, k: Connective)
    ensures Answer(Entails(id, [Spell(P()), Spell(Join(k))], Spell(Q())))
            == if k.AndOf? || k.ImpOf? || k.IffOf? then Pass else Fail
  {
    SmallAnswer(id, P(), k, Q());
    forall v
      ensures IsCase(P(), k, v) && !Holds(Q(), v) ==> k.OrOf? || k.XorOf?
    {
      JoinHolds(k, v);
    }
    JoinHolds(k, Valuing(true, true));
    JoinHolds(k, Valuing(true, false));
    assert k.AndOf? || k.ImpOf? || k.IffOf? ==> IsCase(P(), k, Valuing(true, true));
    assert k.OrOf? || k.XorOf? ==> IsCase(P(), k, Valuing(true, false));
  }

  /** From "q" and the joint, "p" follows for and and iff, and does not for imp, or and xor. */
  lemma Abducing(id: string, k: Connective)
    ensures Answer(Entails(id, [Spell(Q()), Spell(Join(k))], Spell(P()))) == if k.AndOf? || k.IffOf? then Pass else Fail
  {
    SmallAnswer(id, Q(), k, P());
    forall v
      ensures IsCase(Q(), k, v) && !Holds(P(), v) ==> k.OrOf? || k.XorOf? || k.ImpOf?
    {
      JoinHolds(k, v);
    }
    JoinHolds(k, Valuing(true, true));
    JoinHolds(k, Valuing(false, true));
    assert k.AndOf? || k.IffOf? ==> IsCase(Q(), k, Valuing(true, true));
    assert k.OrOf? || k.XorOf? || k.ImpOf? ==> IsCase(Q(), k, Valuing(false, true));
  }
}
