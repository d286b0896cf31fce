/**
 The comparative fallback of glass_ionomer/lanes/financial/verify.py: fiscal identity inferred from a
 filing's own label and the distance between period ends.
*/
module ComparativePeriods {
  import opened Wrappers
  import opened FiscalCalendar
  import opened FiledPeriods

  /** `e` is the latest usable end among the rows of filing `a`. */
  ghost predicate IsAnchor(facts: seq<Fact>, a: string, e: int) {
    && (exists f :: f in facts && f.accession == a && f.end == Day(e))
    && (forall f :: f in facts && f.accession == a && f.end.Day? ==> f.end.n <= e)
  }

  /** Some row of filing `a` carries fiscal year `y`. */
  ghost predicate CarriesLabel(facts: seq<Fact>, a: string, y: int) {
    exists f :: f in facts && f.accession == a && f.fy == Some(y)
  }

  /** All the labelled rows of filing `a` carry fiscal year `y`, and some row does. */
  ghost predicate IsOnlyLabel(facts: seq<Fact>, a: string, y: int) {
    && CarriesLabel(facts, a, y)
    && (forall f :: f in facts && f.accession == a && f.fy.Some? ==> f.fy == Some(y))
  }

  /** A full-year duration. */
  predicate IsFullYear(f: Fact) {
    f.start.Day? && f.end.Day? && FY_DAYS_MIN <= f.end.n - f.start.n <= FY_DAYS_MAX
  }

  /** `f` is a comparative row, not its filing's own period, whose inferred fiscal year is `y`. */
  ghost predicate InfersYear(facts: seq<Fact>, f: Fact, y: int) {
    && f in facts && IsFullYear(f)
    && exists anchor, tag ::
         && IsAnchor(facts, f.accession, anchor) && f.end.n != anchor
         && IsOnlyLabel(facts, f.accession, tag)
         && Aligned(anchor - f.end.n) && y == tag - YearsBack(anchor - f.end.n)
  }

  /** Year `y` binds to end `e`: comparative rows say so, and none puts the year elsewhere or the end in another year. */
  ghost predicate Binds(facts: seq<Fact>, y: int, e: int) {
    && (exists f :: InfersYear(facts, f, y) && f.end == Day(e))
    && (forall f :: InfersYear(facts, f, y) ==> f.end == Day(e))
    && (forall f, z :: InfersYear(facts, f, z) && f.end == Day(e) ==> z == y)
  }

  /** A row of the comparative selection for year `y`. */
  ghost predicate InComparative(facts: seq<Fact>, y: int, f: Fact) {
    InfersYear(facts, f, y) && f.end.Day? && Binds(facts, y, f.end.n)
  }

  lemma InferredYearIsUnique(facts: seq<Fact>, f: Fact, y: int, z: int)
    requires InfersYear(facts, f, y) && InfersYear(facts, f, z)
    ensures y == z
  {
  }

  /** For a fixed record the fallback is an injection: one end per year and one year per end. */
  lemma FallbackIsInjective(facts: seq<Fact>, y: int, z: int, f: Fact, g: Fact)
    requires InComparative(facts, y, f) && InComparative(facts, z, g)
    ensures y == z <==> f.end == g.end
  {
  }

  /** `k` whole fiscal years, at least one, separate two ends `gap` days apart. */
  predicate YearsApart(gap: int, k: int) {
    k >= 1 && NearYears(gap, k)
  }

  /**
   What a row bound by the fallback is: a full year ending before its filing's own period, by a whole number
   of fiscal years that separates the claimed year from the only label the filing carries.
  */
  lemma ComparativeRowIsGenuine(facts: seq<Fact>, y: int, f: Fact)
    requires InComparative(facts, y, f)
    ensures f in facts && IsFullYear(f) && !IsAnchor(facts, f.accession, f.end.n)
    ensures exists anchor, tag ::
              && IsAnchor(facts, f.accession, anchor) && f.end.n < anchor
              && IsOnlyLabel(facts, f.accession, tag)
              && YearsApart(anchor - f.end.n, tag - y)
  {
    var anchor, tag :|
      && IsAnchor(facts, f.accession, anchor) && f.end.n != anchor
      && IsOnlyLabel(facts, f.accession, tag)
      && Aligned(anchor - f.end.n) && y == tag - YearsBack(anchor - f.end.n);
    assert YearsApart(anchor - f.end.n, tag - y);
  }

  type Anchors = map<string, int>
  type LabelSets = map<string, set<int>>

  ghost predicate EndsOk(facts: seq<Fact>, ownEnd: Anchors) {
    && (forall a :: a in ownEnd ==> IsAnchor(facts, a, ownEnd[a]))
    && (forall f :: f in facts && f.end.Day? ==> f.accession in ownEnd)
  }

  ghost predicate LabelsOk(facts: seq<Fact>, labels: LabelSets) {
    && (forall a, y :: a in labels && y in labels[a] ==> CarriesLabel(facts, a, y))
    && (forall f :: f in facts && f.fy.Some? ==> f.accession in labels && f.fy.value in labels[f.accession])
  }

  /** The first loop's tables, correct for the rows seen so far. */
  ghost predicate TablesOk(facts: seq<Fact>, ownEnd: Anchors, labels: LabelSets) {
    EndsOk(facts, ownEnd) && LabelsOk(facts, labels)
  }

  method BuildTables(facts: seq<Fact>) returns (ownEnd: Anchors, labels: LabelSets)
    ensures TablesOk(facts, ownEnd, labels)
  {
    ownEnd, labels := map[], map[];
    for i := 0 to |facts|
      invariant TablesOk(facts[..i], ownEnd, labels)
    {
      var f := facts[i];
      assert facts[..i + 1] == facts[..i] + [f];
      if f.end.Day? && (f.accession !in ownEnd || f.end.n > ownEnd[f.accession]) {
        ownEnd := ownEnd[f.accession := f.end.n];
      }
      if f.fy.Some? {
        var seen := if f.accession in labels then labels[f.accession] else {};
        labels := labels[f.accession := seen + {f.fy.value}];
      }
    }
    assert facts[..|facts|] == facts;
  }

  /** Python's `next(iter(s))`. */
  method AnyOf(s: set<int>) returns (x: int)
    requires s != {}
    ensures x in s
  {
    assert (forall y: int :: y !in s) ==> s == {};
    x :| x in s;
  }

  /** The fiscal year inferred for one row, where the row is a usable comparative. */
  method RowYear(ghost facts: seq<Fact>, f: Fact, ownEnd: Anchors, labels: LabelSets) returns (year: Option<int>)
    requires TablesOk(facts, ownEnd, labels) && f in facts
    ensures forall y :: year == Some(y) <==> InfersYear(facts, f, y)
  {
    year := None;
    if f.start.Day? && f.end.Day? {
      var anchor := ownEnd[f.accession];
      var seen := if f.accession in labels then labels[f.accession] else {};
      if f.end.n != anchor && |seen| == 1 {
        var tag := AnyOf(seen);
        OnlyLabel(facts, f.accession, seen, tag);
        if IsFullYear(f) && Aligned(anchor - f.end.n) {
          year := Some(tag - YearsBack(anchor - f.end.n));
        }
      } else if f.end.n != anchor {
        NoOnlyLabel(facts, f.accession, ownEnd, labels);
      }
    }
  }

  lemma Singleton(s: set<int>, x: int)
    requires x in s && |s| <= 1
    ensures s == {x}
  {
    assert s == {x} + (s - {x});
  }

  lemma OnlyLabel(facts: seq<Fact>, a: string, seen: set<int>, tag: int)
    requires tag in seen && |seen| == 1
    requires forall y :: y in seen ==> CarriesLabel(facts, a, y)
    requires forall f :: f in facts && f.fy.Some? && f.accession == a ==> f.fy.value in seen
    ensures IsOnlyLabel(facts, a, tag)
  {
    Singleton(seen, tag);
  }

  lemma NoOnlyLabel(facts: seq<Fact>, a: string, ownEnd: Anchors, labels: LabelSets)
    requires TablesOk(facts, ownEnd, labels)
    requires a !in labels || |labels[a]| != 1
    ensures forall y :: !IsOnlyLabel(facts, a, y)
  {
    if y :| IsOnlyLabel(facts, a, y) {
      var f :| f in facts && f.accession == a && f.fy == Some(y);
      forall z | z in labels[a]
        ensures z == y
      {
        var g :| g in facts && g.accession == a && g.fy == Some(z);
      }
      assert labels[a] == {y};
    }
  }

  type YearSets = map<int, set<int>>
  type RowsByEnd = map<int, seq<Fact>>

  ghost predicate IsInferred(facts: seq<Fact>, f: Fact) {
    exists y :: InfersYear(facts, f, y)
  }

  /** Years are inferred from rows seen with their end. */
  ghost predicate YearsSound(facts: seq<Fact>, seen: seq<Fact>, inferred: YearSets) {
    forall e, y :: e in inferred && y in inferred[e] ==> exists f :: f in seen && f.end == Day(e) && InfersYear(facts, f, y)
  }

  ghost predicate RowsSound(facts: seq<Fact>, seen: seq<Fact>, rowsByEnd: RowsByEnd) {
    forall e, f :: e in rowsByEnd && f in rowsByEnd[e] ==> f in seen && f.end == Day(e) && IsInferred(facts, f)
  }

  /** Every usable row seen has left its year and itself under its end. */
  ghost predicate TablesComplete(facts: seq<Fact>, seen: seq<Fact>, inferred: YearSets, rowsByEnd: RowsByEnd) {
    forall f, y :: f in seen && InfersYear(facts, f, y)
      ==> && f.end.Day? && f.end.n in inferred && y in inferred[f.end.n]
          && f.end.n in rowsByEnd && f in rowsByEnd[f.end.n]
  }

  /** The second loop's tables for the rows in `seen`. */
  ghost predicate InferredOk(facts: seq<Fact>, seen: seq<Fact>, inferred: YearSets, rowsByEnd: RowsByEnd) {
    && YearsSound(facts, seen, inferred)
    && RowsSound(facts, seen, rowsByEnd)
    && TablesComplete(facts, seen, inferred, rowsByEnd)
  }

  function WithYear(inferred: YearSets, e: int, y: int): YearSets {
    inferred[e := (if e in inferred then inferred[e] else {}) + {y}]
  }

  function WithRow(rowsByEnd: RowsByEnd, e: int, f: Fact): RowsByEnd {
    rowsByEnd[e := (if e in rowsByEnd then rowsByEnd[e] else []) + [f]]
  }

  lemma CompleteStep(facts: seq<Fact>, seen: seq<Fact>, f: Fact, e: int, y: int, inferred: YearSets, rowsByEnd: RowsByEnd)
    requires TablesComplete(facts, seen, inferred, rowsByEnd) && InfersYear(facts, f, y) && f.end == Day(e)
    ensures TablesComplete(facts, seen + [f], WithYear(inferred, e, y), WithRow(rowsByEnd, e, f))
  {
    forall h, z | h in seen + [f] && InfersYear(facts, h, z)
      ensures h.end.Day? && h.end.n in WithYear(inferred, e, y) && z in WithYear(inferred, e, y)[h.end.n]
      ensures h.end.n in WithRow(rowsByEnd, e, f) && h in WithRow(rowsByEnd, e, f)[h.end.n]
    {
      if h !in seen {
        InferredYearIsUnique(facts, f, y, z);
      }
    }
  }

  lemma InferredStep(facts: seq<Fact>, seen: seq<Fact>, f: Fact, y: int, inferred: YearSets, rowsByEnd: RowsByEnd)
    requires InferredOk(facts, seen, inferred, rowsByEnd) && InfersYear(facts, f, y)
    ensures f.end.Day?
    ensures InferredOk(facts, seen + [f], WithYear(inferred, f.end.n, y), WithRow(rowsByEnd, f.end.n, f))
  {
    CompleteStep(facts, seen, f, f.end.n, y, inferred, rowsByEnd);
  }

  method InferYears(facts: seq<Fact>, ownEnd: Anchors, labels: LabelSets) returns (inferred: YearSets, rowsByEnd: RowsByEnd)
    requires TablesOk(facts, ownEnd, labels)
    ensures InferredOk(facts, facts, inferred, rowsByEnd)
  {
    inferred, rowsByEnd := map[], map[];
    for i := 0 to |facts|
      invariant InferredOk(facts, facts[..i], inferred, rowsByEnd)
    {
      var f := facts[i];
      assert facts[..i + 1] == facts[..i] + [f];
      var year := RowYear(facts, f, ownEnd, labels);
      if year.None? {
      } else {
        InferredStep(facts, facts[..i], f, year.value, inferred, rowsByEnd);
        inferred := WithYear(inferred, f.end.n, year.value);
        rowsByEnd := WithRow(rowsByEnd, f.end.n, f);
      }
    }
    assert facts[..|facts|] == facts;
  }

  function Matching(inferred: YearSets, want: int): (r: set<int>)
    ensures r <= inferred.Keys
  {
    set e | e in inferred && want in inferred[e]
  }

  /** The three refusals of the source: no matching end, an end with several years, several ends. */
  predicate Refused(inferred: YearSets, want: int) {
    var matching := Matching(inferred, want);
    matching == {} || (exists e :: e in matching && |inferred[e]| > 1) || |matching| > 1
  }

  /** `_comparative_period_facts`: the rows of the one end that the claimed year binds to, or none. */
  method ComparativePeriodFacts(facts: seq<Fact>, fy: Option<int>, fp: Option<string>) returns (rows: seq<Fact>)
    ensures forall f :: f in rows <==> fp == Some("FY") && fy.Some? && InComparative(facts, fy.value, f)
  {
    if fp != Some("FY") || fy.None? {
      return [];
    }
    var ownEnd, labels := BuildTables(facts);
    var inferred, rowsByEnd := InferYears(facts, ownEnd, labels);
    rows := SelectRows(facts, fy.value, inferred, rowsByEnd);
  }

  method SelectRows(ghost facts: seq<Fact>, want: int, inferred: YearSets, rowsByEnd: RowsByEnd) returns (rows: seq<Fact>)
    requires InferredOk(facts, facts, inferred, rowsByEnd)
    ensures forall f :: f in rows <==> InComparative(facts, want, f)
  {
    if Refused(inferred, want) {
      NothingBinds(facts, want, inferred, rowsByEnd);
      return [];
    }
    var matching := Matching(inferred, want);
    var e := AnyOf(matching);
    OneBinds(facts, want, inferred, rowsByEnd, e);
    rows := rowsByEnd[e];
  }

  lemma MatchingIsInferred(facts: seq<Fact>, want: int, inferred: YearSets, rowsByEnd: RowsByEnd, e: int)
    requires InferredOk(facts, facts, inferred, rowsByEnd)
    ensures e in Matching(inferred, want) <==> exists f :: InfersYear(facts, f, want) && f.end == Day(e)
  {
    if f :| InfersYear(facts, f, want) && f.end == Day(e) {
      assert f in facts;
    }
  }

  lemma BindingIsNotRefused(facts: seq<Fact>, want: int, inferred: YearSets, rowsByEnd: RowsByEnd, e: int)
    requires InferredOk(facts, facts, inferred, rowsByEnd) && Binds(facts, want, e)
    ensures !Refused(inferred, want)
  {
    forall d
      ensures d in Matching(inferred, want) <==> d == e
    {
      MatchingIsInferred(facts, want, inferred, rowsByEnd, d);
    }
    assert Matching(inferred, want) == {e};
    forall y
      ensures y in inferred[e] <==> y == want
    {
    }
    assert inferred[e] == {want};
  }

  lemma NothingBinds(facts: seq<Fact>, want: int, inferred: YearSets, rowsByEnd: RowsByEnd)
    requires InferredOk(facts, facts, inferred, rowsByEnd) && Refused(inferred, want)
    ensures forall e :: !Binds(facts, want, e)
  {
    if e :| Binds(facts, want, e) {
      BindingIsNotRefused(facts, want, inferred, rowsByEnd, e);
    }
  }

  lemma OneBinds(facts: seq<Fact>, want: int, inferred: YearSets, rowsByEnd: RowsByEnd, e: int)
    requires InferredOk(facts, facts, inferred, rowsByEnd)
    requires !Refused(inferred, want) && e in Matching(inferred, want)
    ensures e in rowsByEnd && Binds(facts, want, e)
    ensures forall f :: f in rowsByEnd[e] <==> InComparative(facts, want, f)
  {
    Singleton(Matching(inferred, want), e);
    Singleton(inferred[e], want);
    MatchingIsInferred(facts, want, inferred, rowsByEnd, e);
    forall f | InfersYear(facts, f, want)
      ensures f.end == Day(e)
    {
      MatchingIsInferred(facts, want, inferred, rowsByEnd, f.end.n);
    }
    forall f, z | InfersYear(facts, f, z) && f.end == Day(e)
      ensures z == want
    {
    }
  }
}
