/** How the comparative fallback of the financial lane fares against other filings. */
module FallbackTheorems {
  import opened Wrappers
  import opened FiscalCalendar
  import opened FiledPeriods
  import opened ComparativePeriods
  import opened FinancialLane
  import opened FinancialTheorems

  /** Filing `a` has its own period end at `e`, and `z` is the only year it is labelled with. */
  ghost predicate Labels(facts: seq<Fact>, a: string, e: int, z: int) {
    IsAnchor(facts, a, e) && IsOnlyLabel(facts, a, z)
  }

  /** No filing labels its own period ending at `e` other than `y`. */
  ghost predicate AllAgree(facts: seq<Fact>, e: int, y: int) {
    forall a, z :: Labels(facts, a, e, z) ==> z == y
  }

  /** The labels of two filings lie as many years apart as their own period ends. */
  predicate InStep(late: int, lateLabel: int, early: int, earlyLabel: int) {
    NearYears(late - early, lateLabel - earlyLabel)
  }

  /** The filing of a comparative row is in step with every filing whose own period is the row's. */
  ghost predicate InStepAt(facts: seq<Fact>, f: Fact)
    requires f.end.Day?
  {
    forall a, z, d, t :: Labels(facts, a, f.end.n, z) && Labels(facts, f.accession, d, t) ==> InStep(d, t, f.end.n, z)
  }

  /**
   The fallback asks no filing how it labels the end it binds. It gives that end the year its filings give it
   exactly where the row's own filing is in step with them.
  */
  lemma CrossPathExactly(facts: seq<Fact>, y: int, f: Fact)
    requires InComparative(facts, y, f)
    ensures AllAgree(facts, f.end.n, y) <==> InStepAt(facts, f)
  {
    var d, t := LabelsOfComparative(facts, y, f);
    var e := f.end.n;
    AlignedIsNearSomeYears(d - e);
    forall z
      ensures InStep(d, t, e, z) <==> z == y
    {
      assert NearYears(d - e, t - z) ==> t - z == YearsBack(d - e);
    }
    forall d', t' | Labels(facts, f.accession, d', t')
      ensures d' == d && t' == t
    {
    }
  }

  lemma LabelsOfComparative(facts: seq<Fact>, y: int, f: Fact) returns (d: int, t: int)
    requires InComparative(facts, y, f)
    ensures Labels(facts, f.accession, d, t)
    ensures Aligned(d - f.end.n) && y == t - YearsBack(d - f.end.n)
  {
    d, t :|
      && IsAnchor(facts, f.accession, d) && f.end.n != d
      && IsOnlyLabel(facts, f.accession, t)
      && Aligned(d - f.end.n) && y == t - YearsBack(d - f.end.n);
  }

  /** A filing for 2023, and a later one that is labelled 2023 as well and restates the first as a comparative. */
  function OutOfStepRecord(): Record {
    Record(Some(1), [ExampleRow(5.0, 2023, 19358, 19722, "A"), ExampleRow(7.0, 2023, 19724, 20089, "B"),
                     ExampleRow(6.0, 2023, 19358, 19722, "B")], true)
  }

  lemma OutOfStepInference(f: Fact, y: int)
    ensures InfersYear(OutOfStepRecord().facts, f, y) <==> f == OutOfStepRecord().facts[2] && y == 2022
  {
    var facts := OutOfStepRecord().facts;
    var a, b, comparative := facts[0], facts[1], facts[2];
    assert facts == [a, b, comparative] && a in facts && b in facts && comparative in facts;
    assert IsAnchor(facts, "B", 20089) && IsAnchor(facts, "A", 19722) && IsOnlyLabel(facts, "B", 2023);
    assert InfersYear(facts, comparative, 2022);
    if f == comparative && InfersYear(facts, f, y) {
      InferredYearIsUnique(facts, comparative, 2022, y);
    }
  }

  lemma OutOfStepSelection(f: Fact)
    ensures Selected(OutOfStepRecord().facts, Some(2022), Some("FY"), f) <==> f == OutOfStepRecord().facts[2]
  {
    var facts := OutOfStepRecord().facts;
    forall g, y
      ensures InfersYear(facts, g, y) <==> g == facts[2] && y == 2022
    {
      OutOfStepInference(g, y);
    }
    assert Binds(facts, 2022, 19722);
  }

  /** So one end can bind two years: A's own row reports it for 2023, and a claim for 2022 is verified by B's. */
  lemma OneEndTwoYears(c: FinancialClaim)
    requires c == FinancialClaim("c", Some(6.0), Present(2022), Present("FY"), Present(1), false)
    ensures var facts := OutOfStepRecord().facts;
            && IsOwnPeriod(facts, Some(2023), Some("FY"), facts[0]) && Labels(facts, "A", 19722, 2023)
            && facts[2].end == facts[0].end
            && StatusFor(c, OutOfStepRecord(), true).Verified?
  {
    var facts := OutOfStepRecord().facts;
    assert facts[0] in facts;
    assert Labels(facts, "A", 19722, 2023);
    forall f
      ensures Selected(facts, Some(2022), Some("FY"), f) <==> f == facts[2]
    {
      OutOfStepSelection(f);
    }
    SingleRowDecides(c, OutOfStepRecord(), facts[2]);
  }

  /** `extra` are rows of filings that have none among `facts`. */
  predicate Unrelated(facts: seq<Fact>, extra: seq<Fact>) {
    forall f, g :: f in facts && g in extra ==> f.accession != g.accession
  }

  /** Unrelated filings leave what a row's own filing says of it as it was. */
  lemma InferenceStays(facts: seq<Fact>, extra: seq<Fact>, f: Fact, y: int)
    requires Unrelated(facts, extra) && f in facts
    ensures InfersYear(facts + extra, f, y) <==> InfersYear(facts, f, y)
  {
    var more := facts + extra;
    forall e, t
      ensures IsAnchor(more, f.accession, e) <==> IsAnchor(facts, f.accession, e)
      ensures IsOnlyLabel(more, f.accession, t) <==> IsOnlyLabel(facts, f.accession, t)
    {
      assert forall g :: g in more && g.accession == f.accession <==> g in facts && g.accession == f.accession;
    }
  }

  /** The selection grows or empties. */
  lemma SelectionGrowsOrEmpties(facts: seq<Fact>, extra: seq<Fact>, y: int, f: Fact, g: Fact)
    requires Unrelated(facts, extra) && InComparative(facts, y, f) && InComparative(facts + extra, y, g)
    ensures InComparative(facts + extra, y, f)
  {
    InferenceStays(facts, extra, f, y);
    assert Binds(facts + extra, y, g.end.n);
  }

  /** No row among `extra` carries the claimed label. */
  predicate LabelsNone(extra: seq<Fact>, fy: Option<int>, fp: Option<string>) {
    forall g :: g in extra ==> !Labelled(g, fy, fp)
  }

  lemma FallbackStays(facts: seq<Fact>, extra: seq<Fact>, fy: Option<int>, fp: Option<string>, f: Fact, g: Fact)
    requires Unrelated(facts, extra) && LabelsNone(extra, fy, fp) && !HasLabelled(facts, fy, fp)
    requires Selected(facts, fy, fp, f) && Selected(facts + extra, fy, fp, g)
    ensures Selected(facts + extra, fy, fp, f)
  {
    assert !HasLabelled(facts + extra, fy, fp);
    SelectionGrowsOrEmpties(facts, extra, fy.value, f, g);
  }

  /**
   Further filings, none of them under the claimed label, never turn a fallback-bound verdict into its opposite: a
   claim that was decided or contested stays as it was, becomes CONTESTED, or becomes UNVERIFIED.
  */
  lemma UnlabelledFilingsNeverFlip(c: FinancialClaim, r: Record, extra: seq<Fact>, bindingTrusted: bool)
    requires Unrelated(r.facts, extra) && LabelsNone(extra, Norm(c.fy), Norm(c.fp))
    requires !HasLabelled(r.facts, Norm(c.fy), Norm(c.fp))
    ensures var before, after := StatusFor(c, r, bindingTrusted), StatusFor(c, r.(facts := r.facts + extra), bindingTrusted);
            !before.Unverified? ==> after == before || after.Contested? || after.Unverified?
  {
    var fy, fp := Norm(c.fy), Norm(c.fp);
    var facts, more := r.facts, r.facts + extra;
    var before, after := StatusFor(c, r, bindingTrusted), StatusFor(c, r.(facts := more), bindingTrusted);
    if !before.Unverified? && !after.Unverified? {
      var g :| Selected(more, fy, fp, g);
      forall f | Selected(facts, fy, fp, f)
        ensures Selected(more, fy, fp, f)
      {
        FallbackStays(facts, extra, fy, fp, f, g);
      }
      LargerSelectionAgrees(c, r, more, bindingTrusted);
    }
  }

  /** A selection that grows without restatement keeps its verdict. */
  lemma LargerSelectionAgrees(c: FinancialClaim, r: Record, more: seq<Fact>, bindingTrusted: bool)
    requires forall f :: Selected(r.facts, Norm(c.fy), Norm(c.fp), f) ==> Selected(more, Norm(c.fy), Norm(c.fp), f)
    requires !StatusFor(c, r, bindingTrusted).Unverified? && !StatusFor(c, r.(facts := more), bindingTrusted).Unverified?
    ensures StatusFor(c, r.(facts := more), bindingTrusted) == StatusFor(c, r, bindingTrusted)
            || StatusFor(c, r.(facts := more), bindingTrusted).Contested?
  {
    var fy, fp := Norm(c.fy), Norm(c.fp);
    if !Restated(more, fy, fp) {
      var f :| Selected(r.facts, fy, fp, f);
      assert forall g :: Selected(more, fy, fp, g) ==> g.value == f.value;
    }
  }
}
