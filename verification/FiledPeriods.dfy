/**
 Which filed rows report a claimed fiscal period, from glass_ionomer/lanes/financial/verify.py: the filings'
 own-period rows, and the fallback to comparative rows. Labels are already normalised.
*/
module FiledPeriods {
  import opened Wrappers
  import opened FiscalCalendar

  datatype Fact = Fact(
    value: real,
    fy: Option<int>,
    fp: Option<string>,
    form: Option<string>,
    start: DateField,
    end: DateField,
    accession: string)

  predicate Labelled(f: Fact, fy: Option<int>, fp: Option<string>) {
    f.fy == fy && f.fp == fp
  }

  /** No labelled row of the same filing ends later. */
  predicate EndsLast(facts: seq<Fact>, fy: Option<int>, fp: Option<string>, f: Fact) {
    f.end.Day? ==>
      forall g :: g in facts && Labelled(g, fy, fp) && g.accession == f.accession && g.end.Day? ==> g.end.n <= f.end.n
  }

  /** `f` is its filing's own-period row among the labelled ones, or a labelled row with no usable end. */
  predicate IsOwnPeriod(facts: seq<Fact>, fy: Option<int>, fp: Option<string>, f: Fact) {
    f in facts && Labelled(f, fy, fp) && EndsLast(facts, fy, fp, f)
  }

  predicate IsAmendment(form: Option<string>) {
    form.Some? && |form.value| >= 2 && form.value[|form.value| - 2..] == "/A"
  }

  /** An under-labelled row that may restate the period: same end, or a wholly unlabelled undated amendment. */
  predicate MayRestate(f: Fact, ends: set<DateField>) {
    || (f.end in ends && (f.fy.None? || f.fp.None?))
    || (f.fy.None? && f.fp.None? && f.end.NoDate? && IsAmendment(f.form))
  }

  /** The ends, other than missing ones, of the own-period rows. */
  ghost predicate IsOwnEnd(facts: seq<Fact>, fy: Option<int>, fp: Option<string>, e: DateField) {
    !e.NoDate? && exists f :: IsOwnPeriod(facts, fy, fp, f) && f.end == e
  }

  ghost predicate HasLabelled(facts: seq<Fact>, fy: Option<int>, fp: Option<string>) {
    exists f :: f in facts && Labelled(f, fy, fp)
  }

  /** The rows that report the period on the strength of its label. */
  ghost predicate InPeriod(facts: seq<Fact>, fy: Option<int>, fp: Option<string>, f: Fact) {
    && HasLabelled(facts, fy, fp)
    && (IsOwnPeriod(facts, fy, fp, f)
        || (f in facts && ((IsOwnEnd(facts, fy, fp, f.end) && (f.fy.None? || f.fp.None?))
                           || (f.fy.None? && f.fp.None? && f.end.NoDate? && IsAmendment(f.form)))))
  }

  method LabelledRows(facts: seq<Fact>, fy: Option<int>, fp: Option<string>) returns (labelled: seq<Fact>)
    ensures forall f :: f in labelled <==> f in facts && Labelled(f, fy, fp)
  {
    labelled := [];
    for i := 0 to |facts|
      invariant forall f :: f in labelled <==> f in facts[..i] && Labelled(f, fy, fp)
    {
      assert facts[..i + 1] == facts[..i] + [facts[i]];
      if Labelled(facts[i], fy, fp) {
        labelled := labelled + [facts[i]];
      }
    }
    assert facts[..|facts|] == facts;
  }

  /** Rows by filing: `byAccession.setdefault(accession, []).append(row)`. */
  method GroupByAccession(rows: seq<Fact>) returns (groups: map<string, seq<Fact>>)
    ensures forall a :: a in groups <==> exists f :: f in rows && f.accession == a
    ensures forall a, f :: a in groups ==> (f in groups[a] <==> f in rows && f.accession == a)
  {
    groups := map[];
    for i := 0 to |rows|
      invariant forall f :: f in rows[..i] ==> f.accession in groups
      invariant forall a :: a in groups ==> exists f :: f in rows[..i] && f.accession == a
      invariant forall a, f :: a in groups ==> (f in groups[a] <==> f in rows[..i] && f.accession == a)
    {
      var row := rows[i];
      assert rows[..i + 1] == rows[..i] + [row];
      var group := if row.accession in groups then groups[row.accession] else [];
      groups := groups[row.accession := group + [row]];
      assert row in rows[..i + 1];
    }
    assert rows[..|rows|] == rows;
  }

  /** The latest usable end of one filing's rows, if it has one. */
  method LatestEnd(rows: seq<Fact>) returns (latest: Option<int>)
    ensures latest.None? ==> forall f :: f in rows ==> !f.end.Day?
    ensures latest.Some? ==> exists f :: f in rows && f.end == Day(latest.value)
    ensures latest.Some? ==> forall f :: f in rows && f.end.Day? ==> f.end.n <= latest.value
  {
    latest := None;
    for i := 0 to |rows|
      invariant latest.None? ==> forall f :: f in rows[..i] ==> !f.end.Day?
      invariant latest.Some? ==> exists f :: f in rows[..i] && f.end == Day(latest.value)
      invariant latest.Some? ==> forall f :: f in rows[..i] && f.end.Day? ==> f.end.n <= latest.value
    {
      assert rows[..i + 1] == rows[..i] + [rows[i]];
      if rows[i].end.Day? && (latest.None? || latest.value < rows[i].end.n) {
        latest := Some(rows[i].end.n);
        assert rows[i] in rows[..i + 1];
      }
    }
    assert rows[..|rows|] == rows;
  }

  /** One filing's own-period rows: those with the latest end, and those with no usable end. */
  method OwnRows(rows: seq<Fact>) returns (own: seq<Fact>)
    ensures forall f :: f in own <==>
              f in rows && (f.end.Day? ==> forall g :: g in rows && g.end.Day? ==> g.end.n <= f.end.n)
  {
    var latest := LatestEnd(rows);
    own := [];
    for i := 0 to |rows|
      invariant forall f :: f in own <==> f in rows[..i] && (f.end.Day? ==> Some(f.end.n) == latest)
    {
      assert rows[..i + 1] == rows[..i] + [rows[i]];
      if !rows[i].end.Day? || Some(rows[i].end.n) == latest {
        own := own + [rows[i]];
      }
    }
    assert rows[..|rows|] == rows;
  }

  method OwnPeriodRows(facts: seq<Fact>, fy: Option<int>, fp: Option<string>, labelled: seq<Fact>) returns (own: seq<Fact>)
    requires forall f :: f in labelled <==> f in facts && Labelled(f, fy, fp)
    ensures forall f :: f in own <==> IsOwnPeriod(facts, fy, fp, f)
  {
    var groups := GroupByAccession(labelled);
    own := [];
    var rest := groups.Keys;
    while rest != {}
      invariant rest <= groups.Keys
      invariant forall f :: f in own <==> IsOwnPeriod(facts, fy, fp, f) && f.accession !in rest
      decreases rest
    {
      var a :| a in rest;
      var rows := OwnRows(groups[a]);
      forall f
        ensures f in rows <==> IsOwnPeriod(facts, fy, fp, f) && f.accession == a
      {
        assert forall g :: g in groups[a] <==> g in facts && Labelled(g, fy, fp) && g.accession == a;
      }
      own := own + rows;
      rest := rest - {a};
    }
  }

  /** `_period_facts`: selects exactly the rows of the period, in some order of filings. */
  method PeriodFacts(facts: seq<Fact>, fy: Option<int>, fp: Option<string>) returns (period: seq<Fact>)
    ensures forall f :: f in period <==> InPeriod(facts, fy, fp, f)
  {
    var labelled := LabelledRows(facts, fy, fp);
    if labelled == [] {
      return [];
    }
    assert labelled[0] in labelled;
    var own := OwnPeriodRows(facts, fy, fp, labelled);
    var ends := set f | f in own && !f.end.NoDate? :: f.end;
    assert forall e :: e in ends <==> IsOwnEnd(facts, fy, fp, e);
    var extra := [];
    for i := 0 to |facts|
      invariant forall f :: f in extra <==> f in facts[..i] && f !in own && MayRestate(f, ends)
    {
      assert facts[..i + 1] == facts[..i] + [facts[i]];
      if facts[i] !in own && MayRestate(facts[i], ends) {
        extra := extra + [facts[i]];
      }
    }
    assert facts[..|facts|] == facts;
    period := own + extra;
  }
}
