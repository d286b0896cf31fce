/** Restatement safety of the financial lane. */
module FinancialTheorems {
  import opened Wrappers
  import opened Lexicographic
  import opened FiscalCalendar
  import opened FiledPeriods
  import opened ComparativePeriods
  import opened FinancialLane
  import opened Status

  ghost predicate SameRows(facts: seq<Fact>, facts': seq<Fact>) {
    forall f :: f in facts <==> f in facts'
  }

  lemma SameInferredYear(facts: seq<Fact>, facts': seq<Fact>, f: Fact, y: int)
    requires SameRows(facts, facts')
    ensures InfersYear(facts, f, y) ==> InfersYear(facts', f, y)
  {
    if InfersYear(facts, f, y) {
      var anchor, tag :|
        && IsAnchor(facts, f.accession, anchor) && f.end.n != anchor
        && IsOnlyLabel(facts, f.accession, tag)
        && Aligned(anchor - f.end.n) && y == tag - YearsBack(anchor - f.end.n);
      assert IsAnchor(facts', f.accession, anchor) && IsOnlyLabel(facts', f.accession, tag);
    }
  }

  lemma SameComparative(facts: seq<Fact>, facts': seq<Fact>, y: int, f: Fact)
    requires SameRows(facts, facts')
    ensures InComparative(facts, y, f) <==> InComparative(facts', y, f)
  {
    forall g, z
      ensures InfersYear(facts, g, z) <==> InfersYear(facts', g, z)
    {
      SameInferredYear(facts, facts', g, z);
      SameInferredYear(facts', facts, g, z);
    }
  }

  lemma SameSelection(facts: seq<Fact>, facts': seq<Fact>, fy: Option<int>, fp: Option<string>, f: Fact)
    requires SameRows(facts, facts')
    ensures Selected(facts, fy, fp, f) <==> Selected(facts', fy, fp, f)
  {
    if fy.Some? {
      SameComparative(facts, facts', fy.value, f);
    }
  }

  /** Neither the order nor the repetition of filed rows affects the status. */
  lemma RowOrderIsIrrelevant(c: FinancialClaim, r: Record, r': Record, bindingTrusted: bool)
    requires SameRows(r.facts, r'.facts) && r'.cik == r.cik && r'.trusted == r.trusted
    ensures StatusFor(c, r, bindingTrusted) == StatusFor(c, r', bindingTrusted)
  {
    var fy, fp := Norm(c.fy), Norm(c.fp);
    SameVerdicts(r.facts, r'.facts, fy, fp, if c.value.Some? then c.value.value else 0.0);
  }

  lemma SameVerdicts(facts: seq<Fact>, facts': seq<Fact>, fy: Option<int>, fp: Option<string>, x: real)
    requires SameRows(facts, facts')
    ensures SomeSelected(facts, fy, fp) == SomeSelected(facts', fy, fp)
    ensures SomeTooLarge(facts, fy, fp) == SomeTooLarge(facts', fy, fp)
    ensures Restated(facts, fy, fp) == Restated(facts', fy, fp)
    ensures SomeEqual(facts, fy, fp, x) == SomeEqual(facts', fy, fp, x)
  {
    forall f
      ensures Selected(facts, fy, fp, f) <==> Selected(facts', fy, fp, f)
    {
      SameSelection(facts, facts', fy, fp, f);
    }
  }

  lemma SameCitable(facts: seq<Fact>, facts': seq<Fact>, fy: Option<int>, fp: Option<string>, f: Fact)
    requires SameRows(facts, facts')
    ensures Citable(facts, fy, fp, f) ==> Citable(facts', fy, fp, f)
  {
    forall g
      ensures Selected(facts, fy, fp, g) <==> Selected(facts', fy, fp, g)
    {
      SameSelection(facts, facts', fy, fp, g);
    }
  }

  /** Nor does it affect the filing cited. */
  lemma CitationIsDetermined(facts: seq<Fact>, facts': seq<Fact>, fy: Option<int>, fp: Option<string>, a: string, a': string)
    requires SameRows(facts, facts') && IsCited(facts, fy, fp, a) && IsCited(facts', fy, fp, a')
    ensures a == a'
  {
    var f :| Citable(facts, fy, fp, f) && f.accession == a;
    var f' :| Citable(facts', fy, fp, f') && f'.accession == a';
    SameCitable(facts, facts', fy, fp, f);
    SameCitable(facts', facts, fy, fp, f');
    LessTotal(a, a');
  }

  /** `g` comes from a filing that has no row yet. */
  predicate IsFresh(facts: seq<Fact>, g: Fact) {
    forall f :: f in facts ==> f.accession != g.accession
  }

  /** A row from a fresh filing under the claimed label joins the selection and displaces nothing. */
  lemma FreshRowEnlarges(facts: seq<Fact>, g: Fact, fy: Option<int>, fp: Option<string>, f: Fact)
    requires IsFresh(facts, g) && Labelled(g, fy, fp)
    ensures InPeriod(facts, fy, fp, f) ==> InPeriod(facts + [g], fy, fp, f)
    ensures InPeriod(facts + [g], fy, fp, g)
  {
    assert g in facts + [g];
    if IsOwnEnd(facts, fy, fp, f.end) {
      var h :| IsOwnPeriod(facts, fy, fp, h) && h.end == f.end;
    }
  }

  /**
   A claim bound by its label cannot survive a fresh filing that reports another value: it becomes CONTESTED,
   or UNVERIFIED where an amount is too large, whatever it was before.
  */
  lemma RestatementContests(c: FinancialClaim, r: Record, g: Fact, bindingTrusted: bool)
    requires Admitted(c, r) && HasLabelled(r.facts, Norm(c.fy), Norm(c.fp))
    requires IsFresh(r.facts, g) && Labelled(g, Norm(c.fy), Norm(c.fp))
    requires exists f :: Selected(r.facts, Norm(c.fy), Norm(c.fp), f) && f.value != g.value
    ensures var more := r.(facts := r.facts + [g]);
            StatusFor(c, more, bindingTrusted)
            == if SomeTooLarge(more.facts, Norm(c.fy), Norm(c.fp)) then Unverified else Contested
  {
    var fy, fp := Norm(c.fy), Norm(c.fp);
    var f :| Selected(r.facts, fy, fp, f) && f.value != g.value;
    FreshRowEnlarges(r.facts, g, fy, fp, f);
    assert g in r.facts + [g];
    assert Selected(r.facts + [g], fy, fp, f) && Selected(r.facts + [g], fy, fp, g);
  }

  /**
   A claim bound by the fallback is not protected in the same way: the first row under the claimed label
   takes over alone, except for rows that may restate it. It is contested exactly when such a row disagrees.
  */
  lemma FirstLabelledRowTakesOver(c: FinancialClaim, r: Record, g: Fact, bindingTrusted: bool)
    requires Admitted(c, r) && !HasLabelled(r.facts, Norm(c.fy), Norm(c.fp))
    requires Labelled(g, Norm(c.fy), Norm(c.fp))
    requires !SomeTooLarge(r.facts + [g], Norm(c.fy), Norm(c.fp))
    ensures var ends := if g.end.NoDate? then {} else {g.end};
            StatusFor(c, r.(facts := r.facts + [g]), bindingTrusted) == Contested
            <==> Clash(r.facts, g, ends)
  {
    var fy, fp := Norm(c.fy), Norm(c.fp);
    var facts := r.facts + [g];
    var ends := if g.end.NoDate? then {} else {g.end};
    assert g in facts;
    forall f
      ensures IsOwnPeriod(facts, fy, fp, f) <==> f == g
    {
    }
    assert forall e :: IsOwnEnd(facts, fy, fp, e) <==> e in ends;
    assert forall f :: Selected(facts, fy, fp, f) <==> f == g || (f in r.facts && MayRestate(f, ends));
  }

  /** Two rows of the takeover disagree: the labelled row and one that may restate it, or two of the latter. */
  ghost predicate Clash(facts: seq<Fact>, g: Fact, ends: set<DateField>) {
    exists f, h ::
      && (f == g || (f in facts && MayRestate(f, ends)))
      && (h == g || (h in facts && MayRestate(h, ends)))
      && f.value != h.value
  }

  /** `f` reports the period: its filing's own row under the label, or failing any label a row bound by inference. */
  ghost predicate Reports(facts: seq<Fact>, fy: Option<int>, fp: Option<string>, f: Fact) {
    || IsOwnPeriod(facts, fy, fp, f)
    || (!HasLabelled(facts, fy, fp) && fp == Some("FY") && fy.Some? && InComparative(facts, fy.value, f))
  }

  /** `f` reports the claimed amount, and every row bound to the claim reports the same. */
  ghost predicate Vouches(c: FinancialClaim, facts: seq<Fact>, f: Fact) {
    && c.value.Some? && Reports(facts, Norm(c.fy), Norm(c.fp), f)
    && EqualAmounts(c.value.value, f.value) && !IsTooLarge(f.value)
    && forall g :: Selected(facts, Norm(c.fy), Norm(c.fp), g) ==> g.value == f.value
  }

  /** VERIFIED takes exactly an admitted claim, trust in record and binding, and a row that vouches for the amount. */
  lemma VerifiedExactly(c: FinancialClaim, r: Record, bindingTrusted: bool)
    ensures StatusFor(c, r, bindingTrusted).Verified?
            <==> Admitted(c, r) && r.trusted && bindingTrusted && exists f :: Vouches(c, r.facts, f)
  {
    var fy, fp := Norm(c.fy), Norm(c.fp);
    if StatusFor(c, r, bindingTrusted).Verified? {
      var g :| Selected(r.facts, fy, fp, g) && EqualAmounts(c.value.value, g.value);
      var f := g;
      if HasLabelled(r.facts, fy, fp) {
        LabelledSelects(r.facts, fy, fp);
        f :| IsOwnPeriod(r.facts, fy, fp, f) && InPeriod(r.facts, fy, fp, f);
      }
      assert Selected(r.facts, fy, fp, f);
      assert f.value == g.value;
      assert Vouches(c, r.facts, f);
    }
    if f :| Admitted(c, r) && r.trusted && bindingTrusted && Vouches(c, r.facts, f) {
      ReportsIsSelected(r.facts, fy, fp, f);
    }
  }

  lemma ReportsIsSelected(facts: seq<Fact>, fy: Option<int>, fp: Option<string>, f: Fact)
    requires Reports(facts, fy, fp, f)
    ensures Selected(facts, fy, fp, f)
  {
  }

  /**
   No wildcard: the row behind a verified claim carries a year and a period as labels, or is bound by inference,
   exactly where the claim names both; and then they are the ones it names. What is present but blank is matched
   by rows that lack the label.
  */
  lemma PlacedExactly(c: FinancialClaim, r: Record, f: Fact)
    requires Admitted(c, r) && Vouches(c, r.facts, f)
    ensures (f.fy.Some? && f.fp.Some?) || !HasLabelled(r.facts, Norm(c.fy), Norm(c.fp)) <==> c.fy.Present? && c.fp.Present?
    ensures c.fy.Present? && c.fp.Present? ==>
              (f.fy == Some(c.fy.value) && f.fp == Some(c.fp.value)) || InComparative(r.facts, c.fy.value, f)
    ensures (c.fy.Blank? ==> f.fy.None?) && (c.fp.Blank? ==> f.fp.None?)
  {
  }

  /** The claim of the example with its period blank, against a record whose only row has the year and no period. */
  lemma BlankMatchesUnlabelled()
    ensures var row := ExampleRow(5.0, 2023, 19358, 19722, "A").(fp := None);
            StatusFor(ExampleClaim().(fp := Blank), Record(Some(1), [row], true), true).Verified?
  {
    var row := ExampleRow(5.0, 2023, 19358, 19722, "A").(fp := None);
    var c, facts := ExampleClaim().(fp := Blank), [row];
    assert row in facts && forall g :: g in facts ==> g == row;
    assert IsOwnPeriod(facts, Some(2023), None, row);
    assert Vouches(c, facts, row);
    VerifiedExactly(c, Record(Some(1), facts, true), true);
  }

  function ExampleRow(value: real, fy: int, start: int, end: int, accession: string): Fact {
    Fact(value, Some(fy), Some("FY"), Some("10-K"), Day(start), Day(end), accession)
  }

  /** A filing for 2024 whose comparative row reports 2023. */
  function ExampleRecord(): Record {
    Record(Some(1), [ExampleRow(7.0, 2024, 19724, 20089, "A"), ExampleRow(5.0, 2024, 19358, 19722, "A")], true)
  }

  function ExampleClaim(): FinancialClaim {
    FinancialClaim("c", Some(5.0), Present(2023), Present("FY"), Present(1), false)
  }

  function ExampleRestatement(): Record {
    ExampleRecord().(facts := ExampleRecord().facts + [ExampleRow(6.0, 2023, 19358, 19722, "B")])
  }

  lemma ExampleSelection(f: Fact)
    ensures Selected(ExampleRecord().facts, Some(2023), Some("FY"), f) <==> f == ExampleRecord().facts[1]
  {
    var facts := ExampleRecord().facts;
    var own, comparative := facts[0], facts[1];
    assert facts == [own, comparative] && own in facts && comparative in facts;
    assert IsAnchor(facts, "A", 20089) && IsOnlyLabel(facts, "A", 2024);
    assert InfersYear(facts, comparative, 2023);
    forall g, y | InfersYear(facts, g, y)
      ensures g == comparative && y == 2023
    {
      if g == comparative {
        InferredYearIsUnique(facts, comparative, 2023, y);
      }
    }
    assert Binds(facts, 2023, 19722);
  }

  lemma ExampleRestatementSelection(f: Fact)
    ensures Selected(ExampleRestatement().facts, Some(2023), Some("FY"), f) <==> f == ExampleRestatement().facts[2]
  {
    var facts := ExampleRestatement().facts;
    var g := facts[2];
    assert facts == [facts[0], facts[1], g] && g in facts;
    assert forall h :: IsOwnPeriod(facts, Some(2023), Some("FY"), h) <==> h == g;
  }

  /** A claim judged by a single row. */
  lemma SingleRowDecides(c: FinancialClaim, r: Record, row: Fact)
    requires Admitted(c, r) && r.trusted && !IsTooLarge(row.value)
    requires forall f :: Selected(r.facts, Norm(c.fy), Norm(c.fp), f) <==> f == row
    ensures StatusFor(c, r, true) == if EqualAmounts(c.value.value, row.value) then Verified else Refuted
  {
    assert Selected(r.facts, Norm(c.fy), Norm(c.fp), row);
  }

  /** So a claim verified through comparative rows is refuted, not contested, by the first labelled row that differs. */
  lemma FallbackCanFlip()
    ensures StatusFor(ExampleClaim(), ExampleRecord(), true) == Verified
    ensures StatusFor(ExampleClaim(), ExampleRestatement(), true) == Refuted
  {
    forall f
      ensures Selected(ExampleRecord().facts, Some(2023), Some("FY"), f) <==> f == ExampleRecord().facts[1]
      ensures Selected(ExampleRestatement().facts, Some(2023), Some("FY"), f) <==> f == ExampleRestatement().facts[2]
    {
      ExampleSelection(f);
      ExampleRestatementSelection(f);
    }
    SingleRowDecides(ExampleClaim(), ExampleRecord(), ExampleRecord().facts[1]);
    SingleRowDecides(ExampleClaim(), ExampleRestatement(), ExampleRestatement().facts[2]);
  }
}
