/** Dates of filed facts and the day-gap arithmetic of glass_ionomer/lanes/financial/verify.py. */
module FiscalCalendar {
  /**
   A date field of a filed fact: absent or empty; a full-date of section 5.6 of RFC 3339 from 1900 on, as a
   day number; or any other text.
  */
  datatype DateField = NoDate | Day(n: int) | OtherText(s: string)

  const FY_DAYS_MIN := 350
  const FY_DAYS_MAX := 380
  const FY_ALIGN_SLACK_DAYS := 40

  /** Python's `round(gap / 365.25)`; four years are 1461 days, and no gap is a tie. */
  function YearsBack(gap: int): int {
    (8 * gap + 1461) / 2922
  }

  /** The number of years computed is the nearest one: half of 1461 quarter days on either side, and never just that. */
  lemma RoundsToNearest(gap: int)
    ensures -1461 < 2 * (4 * gap - 1461 * YearsBack(gap)) < 1461
  {
  }

  /** The gap is a whole number of years, at least one, give or take the slack. */
  predicate Aligned(gap: int) {
    var k := YearsBack(gap);
    k >= 1 && -(4 * FY_ALIGN_SLACK_DAYS) <= 4 * gap - 1461 * k <= 4 * FY_ALIGN_SLACK_DAYS
  }

  /** Within the slack of a whole number of years `k`. */
  predicate NearYears(gap: int, k: int) {
    -160 <= 4 * gap - 1461 * k <= 160
  }

  /** A gap is accepted exactly when some positive number of years fits it, and that number is the one computed. */
  lemma AlignedIsNearSomeYears(gap: int)
    ensures Aligned(gap) <==> exists k :: k >= 1 && NearYears(gap, k)
    ensures forall k :: NearYears(gap, k) ==> k == YearsBack(gap)
  {
    forall k | NearYears(gap, k)
      ensures k == YearsBack(gap)
    {
      assert 2922 * k <= 8 * gap + 1461 < 2922 * (k + 1);
    }
    if Aligned(gap) {
      assert NearYears(gap, YearsBack(gap));
    }
  }

  /** A run of fiscal years of 52 or 53 weeks each. */
  function RunDays(weeks53: seq<bool>): int {
    if weeks53 == [] then 0 else (if weeks53[0] then 371 else 364) + RunDays(weeks53[1..])
  }

  function LongYears(weeks53: seq<bool>): nat {
    if weeks53 == [] then 0 else (if weeks53[0] then 1 else 0) + LongYears(weeks53[1..])
  }

  lemma {:induction false} RunIsLinear(weeks53: seq<bool>)
    ensures RunDays(weeks53) == 364 * |weeks53| + 7 * LongYears(weeks53)
    ensures LongYears(weeks53) <= |weeks53|
  {
    if weeks53 == [] {
    } else {
      RunIsLinear(weeks53[1..]);
    }
  }

  /** A run of 52- and 53-week years is recognised exactly when the long years keep pace with the solar year. */
  lemma RunIsAligned(weeks53: seq<bool>)
    requires weeks53 != []
    ensures Aligned(RunDays(weeks53)) && YearsBack(RunDays(weeks53)) == |weeks53|
            <==> -160 <= 28 * LongYears(weeks53) - 5 * |weeks53| <= 160
    ensures |weeks53| <= 6 ==> Aligned(RunDays(weeks53)) && YearsBack(RunDays(weeks53)) == |weeks53|
  {
    RunIsLinear(weeks53);
    AlignedIsNearSomeYears(RunDays(weeks53));
    assert NearYears(RunDays(weeks53), |weeks53|) <==> -160 <= 28 * LongYears(weeks53) - 5 * |weeks53| <= 160;
  }
}
