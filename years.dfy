/**
 * The multi-year calendar (backend/astronomy/years.py): consecutive new-year
 * anchors in a range of years delimit the years, and each year's months are
 * built as in the yearly report.
 */
module Years {
  import opened Wrappers
  import opened Instants
  import opened Text
  import opened Sun
  import opened Tables
  import opened Year

  /** The anchors whose UTC year lies in `[startYear, endYear + 1]`, in table order. */
  function AnchorsInYears(anchors: seq<Instant>, startYear: int, endYear: int): (r: seq<Instant>)
    ensures |r| <= |anchors|
    ensures StrictlyIncreasing(anchors) ==> StrictlyIncreasing(r)
  {
    Filter(anchors, t => startYear <= YearOf(t) <= endYear + 1)
  }

  /** An anchor is kept exactly when its UTC year lies in `[startYear, endYear + 1]`. */
  lemma AnchorsInYearsMeaning(anchors: seq<Instant>, startYear: int, endYear: int)
    ensures forall a :: a in AnchorsInYears(anchors, startYear, endYear) <==>
      a in anchors && startYear <= YearOf(a) <= endYear + 1
  {
  }

  /** One year of the calendar: the year of its anchor and its months. */
  datatype YearData = YearData(year: int, months: seq<MonthSpan>)

  /** Year `i` of the calendar, delimited by filtered anchors `i` and `i + 1`. */
  function YearAt(sky: Sky, loc: Location, years: seq<Instant>, fullMoons: seq<Instant>, i: nat): YearData
    requires WellDated(sky)
    requires i + 1 < |years|
  {
    YearData(YearOf(years[i]), Months(sky, loc, InRange(fullMoons, years[i], years[i + 1]), years[i + 1]))
  }

  /** One pass of the year loop. */
  method BuildYear(sky: Sky, loc: Location, years: seq<Instant>, fullMoons: seq<Instant>, i: nat) returns (y: YearData)
    requires WellDated(sky)
    requires i + 1 < |years|
    ensures y == YearAt(sky, loc, years, fullMoons, i)
  {
    var moons := InRange(fullMoons, years[i], years[i + 1]);
    var months := BuildMonths(sky, loc, moons, years[i + 1]);
    y := YearData(YearOf(years[i]), months);
  }

  /** The first `n` years of the calendar delimited by `years`. */
  function YearsUpTo(sky: Sky, loc: Location, years: seq<Instant>, fullMoons: seq<Instant>, n: nat): (r: seq<YearData>)
    requires WellDated(sky)
    requires n == 0 || n < |years|
    ensures |r| == n
  {
    if n == 0 then [] else YearsUpTo(sky, loc, years, fullMoons, n - 1) + [YearAt(sky, loc, years, fullMoons, n - 1)]
  }

  /** The calendar of `get_multi_year_calendar_data`: one entry per pair of consecutive filtered anchors. */
  function Calendar(sky: Sky, loc: Location, anchors: seq<Instant>, fullMoons: seq<Instant>, startYear: int, endYear: int): seq<YearData>
    requires WellDated(sky)
  {
    var years := AnchorsInYears(anchors, startYear, endYear);
    if |years| == 0 then [] else YearsUpTo(sky, loc, years, fullMoons, |years| - 1)
  }

  lemma {:induction false} YearsUpToMeaning(sky: Sky, loc: Location, years: seq<Instant>, fullMoons: seq<Instant>, n: nat)
    requires WellDated(sky)
    requires n == 0 || n < |years|
    ensures forall i :: 0 <= i < n ==> YearsUpTo(sky, loc, years, fullMoons, n)[i] == YearAt(sky, loc, years, fullMoons, i)
  {
    if n > 0 {
      YearsUpToMeaning(sky, loc, years, fullMoons, n - 1);
    }
  }

  /**
   * The calendar has one year fewer than there are anchors in range (none
   * without anchors), and year `i` runs from anchor `i` to anchor `i + 1`.
   */
  lemma CalendarMeaning(sky: Sky, loc: Location, anchors: seq<Instant>, fullMoons: seq<Instant>, startYear: int, endYear: int)
    requires WellDated(sky)
    ensures var years := AnchorsInYears(anchors, startYear, endYear);
      var c := Calendar(sky, loc, anchors, fullMoons, startYear, endYear);
      && |c| == (if |years| == 0 then 0 else |years| - 1)
      && forall i :: 0 <= i < |c| ==> c[i] == YearAt(sky, loc, years, fullMoons, i)
  {
    var years := AnchorsInYears(anchors, startYear, endYear);
    if |years| > 0 {
      YearsUpToMeaning(sky, loc, years, fullMoons, |years| - 1);
    }
  }

  /** `get_multi_year_calendar_data`. */
  method GetMultiYearCalendarData(sky: Sky, loc: Location, anchors: seq<Instant>, fullMoons: seq<Instant>, startYear: int, endYear: int)
    returns (result: seq<YearData>)
    requires WellDated(sky)
    ensures result == Calendar(sky, loc, anchors, fullMoons, startYear, endYear)
  {
    var years := AnchorsInYears(anchors, startYear, endYear);
    result := [];
    var i := 0;
    while i + 1 < |years|
      invariant i == 0 || i < |years|
      invariant result == YearsUpTo(sky, loc, years, fullMoons, i)
    {
      var y := BuildYear(sky, loc, years, fullMoons, i);
      result := result + [y];
      i := i + 1;
    }
  }

  /**
   * Each calendar year is the UTC year of its anchor, and its months are
   * exactly the full moons from its anchor up to (not including) the next
   * anchor, each closing where the next opens.
   */
  lemma YearAtMeaning(sky: Sky, loc: Location, years: seq<Instant>, fullMoons: seq<Instant>, i: nat)
    requires WellDated(sky)
    requires i + 1 < |years|
    ensures var y := YearAt(sky, loc, years, fullMoons, i);
      && y.year == YearOf(years[i])
      && (forall m :: m in MoonsOf(y.months) <==> m in fullMoons && years[i] <= m < years[i + 1])
      && (forall j :: 0 <= j < |y.months| - 1 ==> y.months[j].close == y.months[j + 1].start)
  {
    var moons := InRange(fullMoons, years[i], years[i + 1]);
    MonthsTile(sky, loc, moons, years[i + 1]);
    assert MoonsOf(Months(sky, loc, moons, years[i + 1])) == moons;
  }

  /** How a year relates to the current one. */
  function YearLabel(year: int, currentYear: int): (name: string)
    ensures name == "Past Year" <==> year < currentYear
    ensures name == "Current Year" <==> year == currentYear
    ensures name == "Future Year" <==> year > currentYear
  {
    if year < currentYear then "Past Year"
    else if year == currentYear then "Current Year"
    else "Future Year"
  }

  /** The heading line of a year: "Year: 2024-25 (Current Year)". */
  function YearHeading(year: int, currentYear: int): string {
    "Year: " + IntToString(year) + "-" + LastTwo(IntToString(year + 1)) + " (" + YearLabel(year, currentYear) + ")"
  }

  /** For years from 10 on, the heading's short form is the last two digits of the following year. */
  lemma HeadingShortYear(year: int, currentYear: int)
    requires year >= 10
    ensures var short := LastTwo(IntToString(year + 1));
      && |short| == 2 && IsDigit(short[0]) && IsDigit(short[1])
      && ParseDigits(short) == (year + 1) % 100
      && YearHeading(year, currentYear) == "Year: " + IntToString(year) + "-" + short + " (" + YearLabel(year, currentYear) + ")"
  {
    var short := LastTwo(IntToString(year + 1));
    assert |short| == 2 && IsDigit(short[0]) && IsDigit(short[1]) && ParseDigits(short) == (year + 1) % 100 by {
      assert IntToString(year + 1) == NatToString(year + 1);
      LastTwoDigits(year + 1);
    }
  }

  /** `print_multi_year_calendar`: the heading of each calendar year, in order. */
  function MultiYearHeadings(data: seq<YearData>, currentYear: int): seq<string> {
    seq(|data|, i requires 0 <= i < |data| => YearHeading(data[i].year, currentYear))
  }
}
