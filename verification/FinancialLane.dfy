/** The gates and the verdict of `verify_financial_claim`, glass_ionomer/lanes/financial/verify.py. */
module FinancialLane {
  import opened Wrappers
  import opened Numbers
  import opened Lexicographic
  import opened FiledPeriods
  import opened ComparativePeriods
  import opened Status
  import Decision

  /** At and above this magnitude a float cannot hold every whole dollar. */
  const EXACT_LIMIT := 9007199254740992.0

  /** A field of a claim: None, something that normalises to None, or a normalised value. */
  datatype Given<+T> = Missing | Blank | Present(value: T)

  function Norm<T>(g: Given<T>): Option<T> {
    if g.Present? then Some(g.value) else None
  }

  /** A claimed value that is not finite is None. */
  datatype FinancialClaim = FinancialClaim(
    id: string,
    value: Option<real>,
    fy: Given<int>,
    fp: Given<string>,
    cik: Given<int>,
    hasTicker: bool)

  /** The rows filed for the claimed concept and unit, the record's own entity, and whether the source is trusted. */
  datatype Record = Record(cik: Option<int>, facts: seq<Fact>, trusted: bool)

  predicate IsTooLarge(x: real) {
    x >= EXACT_LIMIT || x <= -EXACT_LIMIT
  }

  /** Exact for whole amounts; otherwise same sign and within a fixed absolute round-off. */
  predicate EqualAmounts(a: real, b: real) {
    if IsWhole(a) && IsWhole(b) then a.Floor == b.Floor
    else if a != 0.0 && b != 0.0 && (a > 0.0) != (b > 0.0) then false
    else -0.000001 <= a - b <= 0.000001
  }

  /** The checks that precede any look at the filed rows. */
  predicate Admitted(c: FinancialClaim, r: Record) {
    && c.value.Some? && !IsTooLarge(c.value.value)
    && !c.fy.Missing? && !c.fp.Missing?
    && (c.cik.Missing? ==> !c.hasTicker)
    && (!c.cik.Missing? ==> c.cik.Present? && r.cik.Some? && r.cik.value == c.cik.value)
  }

  /** The rows the claim is judged by: the labelled period, or failing any label the comparative fallback. */
  ghost predicate Selected(facts: seq<Fact>, fy: Option<int>, fp: Option<string>, f: Fact) {
    if HasLabelled(facts, fy, fp) then InPeriod(facts, fy, fp, f)
    else fp == Some("FY") && fy.Some? && InComparative(facts, fy.value, f)
  }

  ghost predicate SomeSelected(facts: seq<Fact>, fy: Option<int>, fp: Option<string>) {
    exists f :: Selected(facts, fy, fp, f)
  }

  ghost predicate SomeTooLarge(facts: seq<Fact>, fy: Option<int>, fp: Option<string>) {
    exists f :: Selected(facts, fy, fp, f) && IsTooLarge(f.value)
  }

  ghost predicate Restated(facts: seq<Fact>, fy: Option<int>, fp: Option<string>) {
    exists f, g :: Selected(facts, fy, fp, f) && Selected(facts, fy, fp, g) && f.value != g.value
  }

  ghost predicate SomeEqual(facts: seq<Fact>, fy: Option<int>, fp: Option<string>, x: real) {
    exists f :: Selected(facts, fy, fp, f) && EqualAmounts(x, f.value)
  }

  /** The status a claim deserves, as a property of the set of filed rows. */
  ghost function StatusFor(c: FinancialClaim, r: Record, bindingTrusted: bool): EvidenceStatus {
    var fy, fp := Norm(c.fy), Norm(c.fp);
    if !Admitted(c, r) || !SomeSelected(r.facts, fy, fp) || SomeTooLarge(r.facts, fy, fp) then Unverified
    else if Restated(r.facts, fy, fp) then Contested
    else if !r.trusted || !bindingTrusted then Unverified
    else if SomeEqual(r.facts, fy, fp, c.value.value) then Verified
    else Refuted
  }

  /** The row cited: among the selected rows that carry the claimed label, where there are any and nothing is restated. */
  ghost predicate Citable(facts: seq<Fact>, fy: Option<int>, fp: Option<string>, f: Fact) {
    && Selected(facts, fy, fp, f)
    && (!Restated(facts, fy, fp) && (exists g :: Selected(facts, fy, fp, g) && Labelled(g, fy, fp)) ==> Labelled(f, fy, fp))
  }

  /** The latest filing among the citable rows. */
  ghost predicate IsCited(facts: seq<Fact>, fy: Option<int>, fp: Option<string>, a: string) {
    && (exists f :: Citable(facts, fy, fp, f) && f.accession == a)
    && (forall f :: Citable(facts, fy, fp, f) ==> !Less(a, f.accession))
  }

  /** A labelled row of a filing that no labelled row of the filing outlasts. */
  lemma {:induction false} SomeEndsLast(rows: seq<Fact>, fy: Option<int>, fp: Option<string>, a: string)
    requires exists f :: f in rows && Labelled(f, fy, fp) && f.accession == a && f.end.Day?
    ensures exists f :: f in rows && Labelled(f, fy, fp) && f.accession == a && f.end.Day? && EndsLast(rows, fy, fp, f)
  {
    var rest, last := rows[..|rows| - 1], rows[|rows| - 1];
    assert rows == rest + [last];
    if exists f :: f in rest && Labelled(f, fy, fp) && f.accession == a && f.end.Day? {
      SomeEndsLast(rest, fy, fp, a);
      var f :| f in rest && Labelled(f, fy, fp) && f.accession == a && f.end.Day? && EndsLast(rest, fy, fp, f);
      if Labelled(last, fy, fp) && last.accession == a && last.end.Day? && f.end.n < last.end.n {
        assert EndsLast(rows, fy, fp, last);
      } else {
        assert EndsLast(rows, fy, fp, f);
      }
    } else {
      assert EndsLast(rows, fy, fp, last);
    }
  }

  /** A label is enough for the primary path to select something. */
  lemma LabelledSelects(facts: seq<Fact>, fy: Option<int>, fp: Option<string>)
    requires HasLabelled(facts, fy, fp)
    ensures exists f :: IsOwnPeriod(facts, fy, fp, f) && InPeriod(facts, fy, fp, f)
  {
    var g :| g in facts && Labelled(g, fy, fp);
    if g.end.Day? {
      SomeEndsLast(facts, fy, fp, g.accession);
      var f :| f in facts && Labelled(f, fy, fp) && f.accession == g.accession && f.end.Day? && EndsLast(facts, fy, fp, f);
      assert InPeriod(facts, fy, fp, f);
    } else {
      assert InPeriod(facts, fy, fp, g);
    }
  }

  method DistinctValues(period: seq<Fact>) returns (out: seq<real>)
    ensures forall v :: v in out <==> exists f :: f in period && f.value == v
    ensures forall i, j :: 0 <= i < j < |out| ==> out[i] != out[j]
  {
    out := [];
    for i := 0 to |period|
      invariant forall v :: v in out <==> exists f :: f in period[..i] && f.value == v
      invariant forall i, j :: 0 <= i < j < |out| ==> out[i] != out[j]
    {
      assert period[..i + 1] == period[..i] + [period[i]];
      assert period[i] in period[..i + 1];
      if period[i].value !in out {
        out := out + [period[i].value];
      }
    }
    assert period[..|period|] == period;
  }

  /** Python's `max(rows, key=accession)`: the first row of the latest filing. */
  method LatestFiling(rows: seq<Fact>) returns (latest: Fact)
    requires rows != []
    ensures latest in rows && forall f :: f in rows ==> !Less(latest.accession, f.accession)
  {
    latest := rows[0];
    LessIrreflexive(latest.accession);
    for i := 1 to |rows|
      invariant latest in rows && forall j :: 0 <= j < i ==> !Less(latest.accession, rows[j].accession)
    {
      if Less(latest.accession, rows[i].accession) {
        forall j | 0 <= j < i
          ensures !Less(rows[i].accession, rows[j].accession)
        {
          if Less(rows[i].accession, rows[j].accession) {
            LessTransitive(latest.accession, rows[i].accession, rows[j].accession);
          }
        }
        LessIrreflexive(rows[i].accession);
        latest := rows[i];
      }
    }
  }

  /** The kernel's decision on one authoritative lookup. */
  function KernelStatus(id: string, matched: bool, recordTrusted: bool, bindingTrusted: bool, now: int): EvidenceStatus {
    Decision.DecideStatus(
      Decision.Claim(id, Mechanical, None), [Lookup(matched, recordTrusted, bindingTrusted)],
      [], now, Decision.DEFAULT_POLICY, OK).status
  }

  function Lookup(matched: bool, recordTrusted: bool, bindingTrusted: bool): Decision.VerifierResult {
    Decision.VerifierResult(
      Decision.AuthoritativeLookup, if matched then Decision.Passes else Decision.Fails, false,
      Decision.Authoritative, recordTrusted, bindingTrusted, true)
  }

  lemma KernelMaps(id: string, matched: bool, recordTrusted: bool, bindingTrusted: bool, now: int)
    ensures KernelStatus(id, matched, recordTrusted, bindingTrusted, now)
            == if !recordTrusted || !bindingTrusted then Unverified else if matched then Verified else Refuted
  {
    var vr := Lookup(matched, recordTrusted, bindingTrusted);
    var vs := [vr];
    assert vr in vs && forall v :: v in vs ==> v == vr;
    Decision.StatusFromSignals(Decision.Claim(id, Mechanical, None), vs, [], now, Decision.DEFAULT_POLICY, OK);
    assert Decision.TrustedKeys([], Decision.DEFAULT_POLICY) == {};
  }

  method SelectRows(facts: seq<Fact>, fy: Option<int>, fp: Option<string>) returns (period: seq<Fact>)
    ensures forall f :: f in period <==> Selected(facts, fy, fp, f)
  {
    period := PeriodFacts(facts, fy, fp);
    if period == [] {
      if HasLabelled(facts, fy, fp) {
        LabelledSelects(facts, fy, fp);
      }
      period := ComparativePeriodFacts(facts, fy, fp);
    } else {
      assert period[0] in period;
    }
  }

  /** The verdict, the filing cited, and the filing the value is reported in. */
  method VerifyFinancialClaim(c: FinancialClaim, r: Record, bindingTrusted: bool, now: int)
    returns (status: EvidenceStatus, cited: Option<string>, reportedIn: Option<string>)
    ensures status == StatusFor(c, r, bindingTrusted)
    ensures cited.Some? ==> IsCited(r.facts, Norm(c.fy), Norm(c.fp), cited.value)
    ensures cited.Some? <==>
              Admitted(c, r) && SomeSelected(r.facts, Norm(c.fy), Norm(c.fp)) && !SomeTooLarge(r.facts, Norm(c.fy), Norm(c.fp))
    ensures reportedIn == if status.Verified? || status.Refuted? then cited else None
  {
    status, cited, reportedIn := Unverified, None, None;
    if !Admitted(c, r) {
      return;
    }
    var fy, fp := Norm(c.fy), Norm(c.fp);
    var period := SelectRows(r.facts, fy, fp);
    if period == [] {
      return;
    }
    assert period[0] in period;
    if exists f :: f in period && IsTooLarge(f.value) {
      return;
    }
    var distinct := DistinctValues(period);
    ManyValues(r.facts, fy, fp, period, distinct);
    if |distinct| > 1 {
      var latest := LatestFiling(period);
      return Contested, Some(latest.accession), None;
    }
    var own := LabelledRows(period, fy, fp);
    var fact := LatestFiling(if own != [] then own else period);
    if own != [] {
      assert own[0] in own;
    }
    KernelMaps(c.id, EqualAmounts(c.value.value, fact.value), r.trusted, bindingTrusted, now);
    status := KernelStatus(c.id, EqualAmounts(c.value.value, fact.value), r.trusted, bindingTrusted, now);
    cited := Some(fact.accession);
    reportedIn := if status.Verified? || status.Refuted? then cited else None;
  }

  lemma ManyValues(facts: seq<Fact>, fy: Option<int>, fp: Option<string>, period: seq<Fact>, distinct: seq<real>)
    requires forall f :: f in period <==> Selected(facts, fy, fp, f)
    requires forall v :: v in distinct <==> exists f :: f in period && f.value == v
    requires forall i, j :: 0 <= i < j < |distinct| ==> distinct[i] != distinct[j]
    ensures |distinct| > 1 <==> Restated(facts, fy, fp)
  {
    if |distinct| > 1 {
      assert distinct[0] in distinct && distinct[1] in distinct && distinct[0] != distinct[1];
    }
    if f, g :| Selected(facts, fy, fp, f) && Selected(facts, fy, fp, g) && f.value != g.value {
      assert f in period && g in period;
      assert f.value in distinct && g.value in distinct;
    }
  }
}
