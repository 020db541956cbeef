/**
 * The calendar page of a year (backend/calendar.py): each lunar month is laid
 * out on a 6 x 7 grid whose first row holds only day 1 (in its last cell),
 * whose next four rows hold days 2 to 29 and whose last row holds day 30 in a
 * 30-day month.
 */
module CalendarGrid {
  import opened Wrappers
  import opened Instants
  import opened Text
  import opened Sun
  import opened Tables
  import opened Moon
  import opened Year

  type Grid = seq<seq<Option<int>>>

  /** `{"label": ..., "grid": ...}` as `generate_month_grid` returns it. */
  datatype MonthView = MonthView(name: string, grid: Grid)

  function Min(a: int, b: int): int { if a <= b then a else b }
  function Max(a: int, b: int): int { if a >= b then a else b }

  /** The cell in row `r`, column `c` of the grid of a month of `days` days. */
  function GridCell(days: int, r: nat, c: nat): Option<int> {
    if r == 0 then (if c == 6 then Some(1) else None)
    else if r <= 4 then
      var d := 2 + 7 * (r - 1) + c;
      if d <= days then Some(d) else None
    else if days == 30 && c == 0 then Some(30)
    else None
  }

  function GridRow(days: int, r: nat): seq<Option<int>> {
    seq(7, c requires 0 <= c => GridCell(days, r, c))
  }

  /** The grid of a month of `days` days. */
  function GridOf(days: int): Grid {
    seq(6, r requires 0 <= r => GridRow(days, r))
  }

  /** Day `d` is written in some cell of `g`. */
  predicate Shows(g: Grid, d: int) {
    exists r, c :: 0 <= r < |g| && 0 <= c < |g[r]| && g[r][c] == Some(d)
  }

  /** `generate_month_grid`: fills the grid row by row with a running day counter. */
  method GenerateMonthGrid(days: int, name: string) returns (m: MonthView)
    ensures m == MonthView(name, GridOf(days))
  {
    var grid: Grid := [[None, None, None, None, None, None, Some(1)]];
    assert grid[0] == GridRow(days, 0);
    var day := 2;
    for r := 1 to 5
      invariant |grid| == r
      invariant forall i :: 0 <= i < r ==> grid[i] == GridRow(days, i)
      invariant day == Min(2 + 7 * (r - 1), Max(2, days + 1))
    {
      var row: seq<Option<int>> := [];
      for c := 0 to 7
        invariant |row| == c
        invariant forall j :: 0 <= j < c ==> row[j] == GridCell(days, r, j)
        invariant day == Min(2 + 7 * (r - 1) + c, Max(2, days + 1))
      {
        if day <= days {
          row := row + [Some(day)];
          day := day + 1;
        } else {
          row := row + [None];
        }
      }
      assert row == GridRow(days, r);
      grid := grid + [row];
    }
    var last: seq<Option<int>>;
    if days == 30 {
      last := [Some(30), None, None, None, None, None, None];
    } else {
      last := [None, None, None, None, None, None, None];
    }
    assert last == GridRow(days, 5);
    grid := grid + [last];
    assert grid == GridOf(days);
    m := MonthView(name, grid);
  }

  /** The row of day `d` from 2 to 29: one row of seven days after the first row. */
  function DayRow(d: int): int { 1 + (d - 2) / 7 }

  /** The column of day `d` from 2 to 29. */
  function DayColumn(d: int): int { (d - 2) % 7 }

  /** Day `d` from 2 to 29, within the month, sits at row `1 + (d - 2) / 7`, column `(d - 2) % 7`. */
  lemma DayCell(days: int, d: int)
    requires 2 <= d <= Min(days, 29)
    ensures GridOf(days)[DayRow(d)][DayColumn(d)] == Some(d)
  {
    var q, c := (d - 2) / 7, (d - 2) % 7;
    assert 0 <= q <= 3 && 0 <= c < 7 && d == 2 + 7 * q + c;
    assert GridOf(days)[1 + q] == GridRow(days, 1 + q);
    assert GridRow(days, 1 + q)[c] == GridCell(days, 1 + q, c);
  }

  /** Every day from 2 to 29 within the month sits in its cell. */
  lemma DaysInRows(days: int)
    ensures forall d :: 2 <= d <= Min(days, 29) ==> GridOf(days)[DayRow(d)][DayColumn(d)] == Some(d)
  {
    forall d | 2 <= d <= Min(days, 29)
      ensures GridOf(days)[DayRow(d)][DayColumn(d)] == Some(d)
    {
      DayCell(days, d);
    }
  }

  /** Six rows of seven cells. */
  lemma GridShape(days: int)
    ensures |GridOf(days)| == 6
    ensures forall r :: 0 <= r < 6 ==> |GridOf(days)[r]| == 7
  {
    forall r | 0 <= r < 6
      ensures |GridOf(days)[r]| == 7
    {
      assert GridOf(days)[r] == GridRow(days, r);
    }
  }

  /** The last row holds day 30 in its first cell exactly for a 30-day month, and nothing else. */
  lemma LastRow(days: int)
    ensures GridOf(days)[5][0] == Some(30) <==> days == 30
    ensures forall c :: 1 <= c < 7 ==> GridOf(days)[5][c] == None
  {
    assert GridOf(days)[5] == GridRow(days, 5);
  }

  /**
   * The layout: 6 rows of 7 cells, day 1 in the last cell of the first row,
   * day `d` from 2 to 29 (when the month has that many days) at row
   * `1 + (d - 2) / 7`, column `(d - 2) % 7`, and day 30 in the first cell of
   * the last row exactly when the month has 30 days.
   */
  lemma GridLayout(days: int)
    ensures var g := GridOf(days);
      && |g| == 6
      && (forall r :: 0 <= r < 6 ==> |g[r]| == 7)
      && g[0][6] == Some(1)
      && (forall d :: 2 <= d <= Min(days, 29) ==> g[DayRow(d)][DayColumn(d)] == Some(d))
      && (g[5][0] == Some(30) <==> days == 30)
      && (forall c :: 1 <= c < 7 ==> g[5][c] == None)
  {
    GridShape(days);
    LastRow(days);
    assert GridOf(days)[0] == GridRow(days, 0);
    DaysInRows(days);
  }

  /** The days a grid shows: day 1, days 2 to 29 up to the month's length, and day 30 only in a 30-day month. */
  lemma DaysShown(days: int, d: int)
    ensures Shows(GridOf(days), d) <==> d == 1 || 2 <= d <= Min(days, 29) || (d == 30 && days == 30)
  {
    var g := GridOf(days);
    if Shows(g, d) {
      var r, c :| 0 <= r < |g| && 0 <= c < |g[r]| && g[r][c] == Some(d);
      assert g[r] == GridRow(days, r);
      assert g[r][c] == GridCell(days, r, c);
    }
    if d == 1 {
      assert g[0] == GridRow(days, 0);
      assert g[0][6] == Some(1);
    } else if 2 <= d <= Min(days, 29) {
      DayCell(days, d);
    } else if d == 30 && days == 30 {
      assert g[5] == GridRow(days, 5);
      assert g[5][0] == Some(30);
    }
  }

  /** No day is written twice: two cells holding the same day are the same cell. */
  lemma NoDayTwice(days: int, r1: nat, c1: nat, r2: nat, c2: nat)
    requires r1 < 6 && c1 < 7 && r2 < 6 && c2 < 7
    requires GridOf(days)[r1][c1].Some? && GridOf(days)[r1][c1] == GridOf(days)[r2][c2]
    ensures r1 == r2 && c1 == c2
  {
    var g := GridOf(days);
    assert g[r1] == GridRow(days, r1);
    assert g[r2] == GridRow(days, r2);
    assert g[r1][c1] == GridCell(days, r1, c1);
    assert g[r2][c2] == GridCell(days, r2, c2);
  }

  /** For a 29- or 30-day month the grid shows exactly the days 1 to `days`. */
  lemma WholeMonthShown(days: int, d: int)
    requires days == 29 || days == 30
    ensures Shows(GridOf(days), d) <==> 1 <= d <= days
  {
    DaysShown(days, d);
  }

  /** "1st Month", "2nd Month", "3rd Month", then "{i + 1}th Month". */
  function OrdinalLabel(i: nat): (name: string)
    ensures i == 0 <==> name == "1st Month"
    ensures i == 1 <==> name == "2nd Month"
    ensures i == 2 <==> name == "3rd Month"
    ensures i >= 3 ==> name == NatToString(i + 1) + "th Month"
  {
    if i == 0 then "1st Month"
    else if i == 1 then "2nd Month"
    else if i == 2 then "3rd Month"
    else
      var s := NatToString(i + 1);
      assert (s + "th Month")[|s|] == 't';
      s + "th Month"
  }

  /** Different months get different labels. */
  lemma OrdinalLabelsDistinct(i: nat, j: nat)
    requires OrdinalLabel(i) == OrdinalLabel(j)
    ensures i == j
  {
    if i >= 3 && j >= 3 {
      var s, t := NatToString(i + 1), NatToString(j + 1);
      var name := OrdinalLabel(i);
      assert |s| == |name| - 8 == |t|;
      assert s == name[..|s|] == t;
      ParseNatToString(i + 1);
      ParseNatToString(j + 1);
    }
  }

  /** Month `i`'s length for the grid: its dawn-cycle count, or 29 when a bounding dawn is missing. */
  function GridDays(m: MonthSpan): int {
    m.days.GetOr(29)
  }

  /** The grid of month `i` of a year whose full moons are `moons`. */
  function MonthViewAt(sky: Sky, loc: Location, moons: seq<Instant>, nextAnchor: Instant, i: nat): MonthView
    requires WellDated(sky)
    requires i < |moons|
  {
    MonthView(OrdinalLabel(i), GridOf(GridDays(MonthAt(sky, loc, moons, nextAnchor, i))))
  }

  /** What `get_calendar_for_year` returns for the year around `now`. */
  function CalendarForYear(sky: Sky, loc: Location, anchors: seq<Instant>, fullMoons: seq<Instant>, now: Instant): seq<MonthView>
    requires WellDated(sky)
  {
    var b := BracketAround(anchors, now);
    if b.prev.None? || b.next.None? then []
    else
      MonthViews(sky, loc, InRange(fullMoons, b.prev.value, b.next.value), b.next.value)
  }

  /** The grids of all months of a year whose full moons are `moons`. */
  function MonthViews(sky: Sky, loc: Location, moons: seq<Instant>, nextAnchor: Instant): seq<MonthView>
    requires WellDated(sky)
  {
    seq(|moons|, i requires 0 <= i < |moons| => MonthViewAt(sky, loc, moons, nextAnchor, i))
  }

  /** The first `i + 1` grids extend the first `i` by month `i`'s grid. */
  lemma MonthViewsPrefix(sky: Sky, loc: Location, moons: seq<Instant>, nextAnchor: Instant, i: nat)
    requires WellDated(sky)
    requires i < |moons|
    ensures var all := MonthViews(sky, loc, moons, nextAnchor);
      all[..i + 1] == all[..i] + [MonthViewAt(sky, loc, moons, nextAnchor, i)]
  {
    PrefixStep(MonthViews(sky, loc, moons, nextAnchor), i);
  }

  /** One pass of the month loop of `get_calendar_for_year`. */
  method BuildMonthView(sky: Sky, loc: Location, moons: seq<Instant>, nextAnchor: Instant, i: nat) returns (view: MonthView)
    requires WellDated(sky)
    requires i < |moons|
    ensures view == MonthViewAt(sky, loc, moons, nextAnchor, i)
  {
    var month := BuildMonth(sky, loc, moons, nextAnchor, i);
    var days := if month.days.Some? then month.days.value else 29;
    view := GenerateMonthGrid(days, OrdinalLabel(i));
  }

  /** `get_calendar_for_year`, with the clock reading `now` as a parameter. */
  method GetCalendarForYear(sky: Sky, loc: Location, anchors: seq<Instant>, fullMoons: seq<Instant>, now: Instant)
    returns (months: seq<MonthView>)
    requires WellDated(sky)
    ensures months == CalendarForYear(sky, loc, anchors, fullMoons, now)
  {
    var b := BracketAround(anchors, now);
    if b.prev.None? || b.next.None? {
      return [];
    }
    var moons := InRange(fullMoons, b.prev.value, b.next.value);
    ghost var all := MonthViews(sky, loc, moons, b.next.value);
    months := [];
    for i := 0 to |moons|
      invariant months == all[..i]
    {
      var view := BuildMonthView(sky, loc, moons, b.next.value, i);
      MonthViewsPrefix(sky, loc, moons, b.next.value, i);
      months := months + [view];
    }
    assert all[..|moons|] == all;
  }

  /**
   * One grid per full moon of the year around `now` (none when an anchor is
   * missing), labelled in order, each as long as its dawn-cycle count or 29
   * days when a bounding dawn is missing.
   */
  lemma CalendarForYearMeaning(sky: Sky, loc: Location, anchors: seq<Instant>, fullMoons: seq<Instant>, now: Instant)
    requires WellDated(sky)
    ensures var cal := CalendarForYear(sky, loc, anchors, fullMoons, now);
      var b := BracketAround(anchors, now);
      && (b.prev.None? || b.next.None? ==> cal == [])
      && (b.prev.Some? && b.next.Some? ==>
        var moons := InRange(fullMoons, b.prev.value, b.next.value);
        && |cal| == |moons|
        && forall i :: 0 <= i < |cal| ==>
          var m := MonthAt(sky, loc, moons, b.next.value, i);
          && cal[i].name == OrdinalLabel(i)
          && cal[i].grid == GridOf(if m.start.time.Some? && m.close.time.Some?
               then DawnCycles(sky, loc, m.start.time.value, m.close.time.value) else 29))
  {
  }
}
