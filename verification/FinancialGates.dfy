/** What the financial lane refuses, matches and counts, in terms of the fields of claims and filed rows. */
module FinancialGates {
  import opened Wrappers
  import opened Numbers
  import opened FiscalCalendar
  import opened FiledPeriods
  import opened ComparativePeriods
  import opened FinancialLane
  import opened FinancialTheorems
  import opened Status

  /** 2 to the power of 53, in magnitude. */
  predicate IsInexact(x: real) {
    x <= -9007199254740992.0 || 9007199254740992.0 <= x
  }

  /** A claim that names another entity than the record's is never answered, and neither is one that names none by number. */
  lemma EntityGates(c: FinancialClaim, r: Record, bindingTrusted: bool)
    ensures c.cik.Present? && r.cik != Some(c.cik.value) ==> StatusFor(c, r, bindingTrusted).Unverified?
    ensures c.cik.Blank? || (c.cik.Missing? && c.hasTicker) ==> StatusFor(c, r, bindingTrusted).Unverified?
  {
  }

  /** Nor is a claim without a finite amount, with one too large to be exact, or without year or period. */
  lemma FieldGates(c: FinancialClaim, r: Record, bindingTrusted: bool)
    ensures c.value.None? || IsInexact(c.value.value) ==> StatusFor(c, r, bindingTrusted).Unverified?
    ensures c.fy.Missing? || c.fp.Missing? ==> StatusFor(c, r, bindingTrusted).Unverified?
  {
  }

  /** The claim passes every gate. */
  predicate IsAnswerable(c: FinancialClaim, r: Record) {
    && c.value.Some? && !IsInexact(c.value.value) && !c.fy.Missing? && !c.fp.Missing?
    && match c.cik
       case Missing => !c.hasTicker
       case Blank => false
       case Present(cik) => r.cik == Some(cik)
  }

  /** A claim stays UNVERIFIED exactly at a gate, without rows, over an inexact row, or untrusted where the rows agree. */
  lemma UnverifiedExactly(c: FinancialClaim, r: Record, bindingTrusted: bool)
    ensures StatusFor(c, r, bindingTrusted).Unverified?
            <==> || !IsAnswerable(c, r)
                 || (forall f :: !Selected(r.facts, Norm(c.fy), Norm(c.fp), f))
                 || (exists f :: Selected(r.facts, Norm(c.fy), Norm(c.fp), f) && IsInexact(f.value))
                 || (!(r.trusted && bindingTrusted) && !Restated(r.facts, Norm(c.fy), Norm(c.fp)))
  {
    if f :| Selected(r.facts, Norm(c.fy), Norm(c.fp), f) && IsInexact(f.value) {
      assert SomeTooLarge(r.facts, Norm(c.fy), Norm(c.fp));
    }
  }

  /** With gates and trust passed and one exact amount filed, the claim is decided by whether the amounts match. */
  lemma DecidedByAmount(c: FinancialClaim, r: Record, f: Fact)
    requires IsAnswerable(c, r) && r.trusted && Selected(r.facts, Norm(c.fy), Norm(c.fp), f) && !IsInexact(f.value)
    requires forall g :: Selected(r.facts, Norm(c.fy), Norm(c.fp), g) ==> g.value == f.value
    ensures StatusFor(c, r, true) == if EqualAmounts(c.value.value, f.value) then Verified else Refuted
  {
  }

  predicate Equals(x: real, n: int) {
    x == n as real
  }

  /** An amount is whole exactly when it is some integer. */
  lemma WholeExactly(x: real)
    ensures IsWhole(x) <==> exists n :: Equals(x, n)
  {
    if IsWhole(x) {
      assert Equals(x, x.Floor);
    }
  }

  /** Whole amounts match when equal; others within a millionth, unless one is above zero and the other below. */
  lemma AmountsMatchExactly(a: real, b: real)
    ensures IsWhole(a) && IsWhole(b) ==> (EqualAmounts(a, b) <==> a == b)
    ensures !(IsWhole(a) && IsWhole(b)) ==>
              (EqualAmounts(a, b) <==> -0.000001 <= a - b <= 0.000001 && !(a < 0.0 < b) && !(b < 0.0 < a))
    ensures EqualAmounts(a, b) == EqualAmounts(b, a) && EqualAmounts(a, a)
  {
  }

  /** A form counts as an amendment exactly when it is some form followed by "/A". */
  lemma AmendmentsExactly(form: Option<string>)
    ensures IsAmendment(form) <==> exists p: string :: form == Some(p + "/A")
  {
    if IsAmendment(form) {
      var p := form.value[..|form.value| - 2];
      assert form.value == p + "/A";
    }
    if p: string :| form == Some(p + "/A") {
      assert form.value[|form.value| - 2..] == "/A";
    }
  }

  /** A row with neither label nor end bears on a labelled claim exactly where its form is an amendment. */
  lemma UnplacedRowExactly(facts: seq<Fact>, fy: int, fp: string, f: Fact)
    requires f in facts && f.fy.None? && f.fp.None? && f.end.NoDate? && HasLabelled(facts, Some(fy), Some(fp))
    ensures InPeriod(facts, Some(fy), Some(fp), f) <==> exists p: string :: f.form == Some(p + "/A")
  {
    AmendmentsExactly(f.form);
  }

  /**
   A row says by inference that it belongs to year `y` exactly where it lasts 350 to 380 days, ends before its
   filing's own period, and does so by as many years as separate `y` from the filing's only label.
  */
  lemma InfersExactly(facts: seq<Fact>, f: Fact, y: int)
    ensures InfersYear(facts, f, y)
            <==> && f in facts && f.start.Day? && f.end.Day? && 350 <= f.end.n - f.start.n <= 380
                 && exists anchor, tag ::
                      && IsAnchor(facts, f.accession, anchor) && IsOnlyLabel(facts, f.accession, tag)
                      && YearsApart(anchor - f.end.n, tag - y)
  {
    if InfersYear(facts, f, y) {
      var anchor, tag :|
        && IsAnchor(facts, f.accession, anchor) && f.end.n != anchor
        && IsOnlyLabel(facts, f.accession, tag)
        && Aligned(anchor - f.end.n) && y == tag - YearsBack(anchor - f.end.n);
      assert YearsApart(anchor - f.end.n, tag - y);
    }
    if f in facts && f.start.Day? && f.end.Day? && 350 <= f.end.n - f.start.n <= 380 {
      if anchor, tag :|
        && IsAnchor(facts, f.accession, anchor) && IsOnlyLabel(facts, f.accession, tag)
        && YearsApart(anchor - f.end.n, tag - y)
      {
        AlignedIsNearSomeYears(anchor - f.end.n);
        assert NearYears(anchor - f.end.n, tag - y);
        assert InfersYear(facts, f, y);
      }
    }
  }

  /** A claim about one company put to another's record: its amount is filed there, and it is not verified. */
  lemma AnotherCompanysRecord()
    ensures StatusFor(ExampleClaim().(cik := Present(2)), ExampleRecord(), true).Unverified?
  {
    EntityGates(ExampleClaim().(cik := Present(2)), ExampleRecord(), true);
  }
}
