/**
 * The calendar numbers the web app reports for a chosen location
 * (`select_location` in app.py): the length of the current lunar month and
 * today's day in it, today's month of the year, the length of every month of
 * the year and the year-range label. The location's time zone is the fixed
 * offset carried by `Location`; the request's coordinates arrive already
 * parsed.
 */
module App {
  import opened Wrappers
  import opened Instants
  import opened Text
  import opened Sun
  import opened Tables
  import opened Moon
  import opened Year

  /** The Python exceptions that end the request with an error instead of a reply. */
  datatype AppFault =
    | NoFullMoon          // a full moon around now is missing (NaT)
    | MissingDawn         // TypeError: a dawn bounding the current month is None
    | YearOverride        // TypeError: `anchor_override` is not a parameter of `print_yearly_events`
    | YearlyFailed(fault: YearFault)

  /** The JSON reply, without the echoed time-zone name and year. */
  datatype Selection = Selection(
    monthNum: int, currentDay: int, daysInMonth: int,
    monthsInYear: seq<Option<int>>, yearRange: string)

  /** The current lunar month: its opening and closing dawns, its length and today's day in it. */
  datatype MonthToday = MonthToday(open: Instant, close: Instant, daysInMonth: int, currentDay: int)

  function MonthOfToday(sky: Sky, loc: Location, fullMoons: seq<Instant>, now: Instant): Result<MonthToday, AppFault>
    requires WellDated(sky)
  {
    var b := BracketAround(fullMoons, now);
    if b.prev.None? || b.next.None? then Err(NoFullMoon)
    else
      var p := FirstDawnAfter(sky, loc, b.prev.value, SearchHorizon);
      var n := FirstDawnAfter(sky, loc, b.next.value, SearchHorizon);
      if p.time.None? || n.time.None? then Err(MissingDawn)
      else
        var days := DawnCycles(sky, loc, p.time.value, n.time.value);
        Ok(MonthToday(p.time.value, n.time.value, days, CurrentDay(MonthDawns(sky, loc, p.time.value, n.time.value), now, days)))
  }

  /**
   * The first part of `select_location`: the month length (the 29-day
   * fallback is never used, since a missing dawn raises in the dawn loop) and
   * today's day.
   */
  method ComputeMonthToday(sky: Sky, loc: Location, fullMoons: seq<Instant>, now: Instant) returns (r: Result<MonthToday, AppFault>)
    requires WellDated(sky)
    ensures r == MonthOfToday(sky, loc, fullMoons, now)
  {
    var b := BracketAround(fullMoons, now);
    if b.prev.None? || b.next.None? {
      return Err(NoFullMoon);
    }
    var p := FindFirstDawnAfter(sky, loc, b.prev.value);
    var n := FindFirstDawnAfter(sky, loc, b.next.value);
    if p.time.None? || n.time.None? {
      return Err(MissingDawn);
    }
    var days := CountDawnCycles(sky, loc, p.time.value, n.time.value);
    var dawns := CollectDawns(sky, loc, p.time.value, n.time.value);
    var day := LocateDay(dawns, now, days);
    r := Ok(MonthToday(p.time.value, n.time.value, days, day));
  }

  /**
   * A reply's month is bracketed by two full moons around `now`; its length is
   * the dawn-cycle count between the dawns after them, and when the month has
   * at least one cycle today's day lies in `1..daysInMonth`.
   */
  lemma MonthOfTodayMeaning(sky: Sky, loc: Location, fullMoons: seq<Instant>, now: Instant)
    requires WellDated(sky)
    ensures var r := MonthOfToday(sky, loc, fullMoons, now);
      var b := BracketAround(fullMoons, now);
      && (r == Err(NoFullMoon) <==> b.prev.None? || b.next.None?)
      && (r == Err(MissingDawn) <==> (b.prev.Some? && b.next.Some? &&
            (FirstDawnAfter(sky, loc, b.prev.value, SearchHorizon).time.None? ||
             FirstDawnAfter(sky, loc, b.next.value, SearchHorizon).time.None?)))
      && (r.Ok? ==> r.value.open > b.prev.value && r.value.close > b.next.value)
      && (r.Ok? ==> r.value.daysInMonth == DawnCycles(sky, loc, r.value.open, r.value.close))
      && (r.Ok? && r.value.open < r.value.close ==> 1 <= r.value.currentDay <= r.value.daysInMonth)
  {
    var r := MonthOfToday(sky, loc, fullMoons, now);
    var b := BracketAround(fullMoons, now);
    if r.Ok? {
      FirstDawnAfterMeaning(sky, loc, b.prev.value, SearchHorizon);
      FirstDawnAfterMeaning(sky, loc, b.next.value, SearchHorizon);
      var p, n := r.value.open, r.value.close;
      MonthDawnsShape(sky, loc, p, n);
      if p < n {
        CurrentDayMeaning(MonthDawns(sky, loc, p, n), now);
      }
    }
  }

  /** The month number: the month whose dawns hold `now`, else 1 before the month's opening dawn, else the last month. */
  function MonthNumber(ms: seq<MonthSpan>, now: Instant, open: Instant): int {
    match MonthContainingFrom(ms, now, 0)
    case Some(k) => k
    case None => if now < open then 1 else |ms|
  }

  /** The month-number scan of `select_location`, which recomputes each month's bounding dawns. */
  method FindMonthNumber(sky: Sky, loc: Location, moons: seq<Instant>, nextAnchor: Instant, now: Instant, open: Instant)
    returns (k: int)
    requires WellDated(sky)
    ensures k == MonthNumber(Months(sky, loc, moons, nextAnchor), now, open)
  {
    ghost var ms := Months(sky, loc, moons, nextAnchor);
    assert |ms| == |moons|;
    var i := 0;
    while i < |moons|
      invariant 0 <= i <= |moons|
      invariant MonthContainingFrom(ms, now, i) == MonthContainingFrom(ms, now, 0)
    {
      var dawn := FindFirstDawnAfter(sky, loc, moons[i]);
      var next := FindFirstDawnAfter(sky, loc, CloseMoon(moons, nextAnchor, i));
      MonthEnds(sky, loc, moons, nextAnchor, i);
      assert Contains(ms[i], now) <==> dawn.time.Some? && next.time.Some? && dawn.time.value <= now < next.time.value;
      if dawn.time.Some? && next.time.Some? && dawn.time.value <= now < next.time.value {
        return i + 1;
      }
      i := i + 1;
    }
    if now < open {
      k := 1;
    } else {
      k := |moons|;
    }
  }

  /**
   * The month number is the first month whose dawns hold `now`; when none
   * does it is 1 if `now` precedes the month's opening dawn and otherwise the
   * number of months, so a year without full moons can yield 0.
   */
  lemma MonthNumberMeaning(ms: seq<MonthSpan>, now: Instant, open: Instant)
    ensures var k := MonthNumber(ms, now, open);
      && ((exists j :: 0 <= j < |ms| && Contains(ms[j], now)) ==>
            1 <= k <= |ms| && Contains(ms[k - 1], now) && forall j :: 0 <= j < k - 1 ==> !Contains(ms[j], now))
      && ((forall j :: 0 <= j < |ms| ==> !Contains(ms[j], now)) ==> k == (if now < open then 1 else |ms|))
  {
    MonthContainingMeaning(ms, now);
  }

  /** `monthsInYear`: each month's dawn-cycle count, or none (`'--'`) when a bounding dawn is missing. */
  function MonthLengths(ms: seq<MonthSpan>): (days: seq<Option<int>>)
    ensures |days| == |ms|
  {
    seq(|ms|, i requires 0 <= i < |ms| => ms[i].days)
  }

  /** The `months_in_year` loop. */
  method ListMonthLengths(sky: Sky, loc: Location, moons: seq<Instant>, nextAnchor: Instant) returns (days: seq<Option<int>>)
    requires WellDated(sky)
    ensures days == MonthLengths(Months(sky, loc, moons, nextAnchor))
  {
    ghost var all := MonthLengths(Months(sky, loc, moons, nextAnchor));
    days := [];
    for i := 0 to |moons|
      invariant days == all[..i]
    {
      var m := BuildMonth(sky, loc, moons, nextAnchor, i);
      MonthLengthsPrefix(sky, loc, moons, nextAnchor, i);
      days := days + [m.days];
    }
    assert all[..|moons|] == all;
  }

  /** The first `i + 1` month lengths extend the first `i` by month `i`'s length. */
  lemma MonthLengthsPrefix(sky: Sky, loc: Location, moons: seq<Instant>, nextAnchor: Instant, i: nat)
    requires WellDated(sky)
    requires i < |moons|
    ensures var all := MonthLengths(Months(sky, loc, moons, nextAnchor));
      all[..i + 1] == all[..i] + [MonthAt(sky, loc, moons, nextAnchor, i).days]
  {
    PrefixStep(MonthLengths(Months(sky, loc, moons, nextAnchor)), i);
  }

  /** The civil year the lunar year ends in: the next anchor's year when it falls after June, else the year before. */
  function EndYear(nextAnchor: Instant): int {
    if MonthOf(nextAnchor) > 6 then YearOf(nextAnchor) else YearOf(nextAnchor) - 1
  }

  /** `yearRange`: "2024-25" for a year starting in 2024 and ending in 2025. */
  function YearRange(prevAnchor: Instant, nextAnchor: Instant): string {
    IntToString(YearOf(prevAnchor)) + "-" + LastTwo(IntToString(EndYear(nextAnchor)))
  }

  /** From year 10 on, the part after the dash is two digits naming the end year modulo 100. */
  lemma YearRangeShape(prevAnchor: Instant, nextAnchor: Instant)
    requires EndYear(nextAnchor) >= 10
    ensures var start := IntToString(YearOf(prevAnchor));
      var r := YearRange(prevAnchor, nextAnchor);
      && |r| == |start| + 3
      && r[..|start|] == start && r[|start|] == '-'
      && IsDigit(r[|start| + 1]) && IsDigit(r[|start| + 2])
      && ParseDigits(r[|start| + 1..]) == EndYear(nextAnchor) % 100
  {
    var start := IntToString(YearOf(prevAnchor));
    var short := LastTwo(IntToString(EndYear(nextAnchor)));
    LastTwoDigits(EndYear(nextAnchor));
    var r := YearRange(prevAnchor, nextAnchor);
    assert r == start + "-" + short;
    assert r[|start| + 1..] == short;
  }

  /** What `select_location` replies for the location, given whether the request named a year. */
  function Select(sky: Sky, loc: Location, fullMoons: seq<Instant>, anchors: seq<Instant>, now: Instant, yearGiven: bool)
    : Result<Selection, AppFault>
    requires WellDated(sky)
  {
    match MonthOfToday(sky, loc, fullMoons, now)
    case Err(f) => Err(f)
    case Ok(today) =>
      if yearGiven then Err(YearOverride)
      else
        match YearlyEvents(sky, loc, anchors, fullMoons, now)
        case Err(f) => Err(YearlyFailed(f))
        case Ok(y) =>
          Ok(Selection(MonthNumber(y.months, now, today.open), today.currentDay, today.daysInMonth,
            MonthLengths(y.months), YearRange(y.prevAnchor, y.nextAnchor)))
  }

  /** `select_location`, with the clock reading `now` and the request's `year` (present or not) as parameters. */
  method SelectLocation(sky: Sky, loc: Location, fullMoons: seq<Instant>, anchors: seq<Instant>, now: Instant, yearGiven: bool)
    returns (r: Result<Selection, AppFault>)
    requires WellDated(sky)
    ensures r == Select(sky, loc, fullMoons, anchors, now, yearGiven)
  {
    var today := ComputeMonthToday(sky, loc, fullMoons, now);
    if today.Err? {
      return Err(today.error);
    }
    var b := BracketAround(anchors, now);
    var moons: seq<Instant> := [];
    var monthNum := 0;
    if b.prev.Some? && b.next.Some? {
      moons := InRange(fullMoons, b.prev.value, b.next.value);
      monthNum := FindMonthNumber(sky, loc, moons, b.next.value, now, today.value.open);
    }
    var moon := PrintTodayMoonEvents(sky, loc, fullMoons, now);
    if yearGiven {
      return Err(YearOverride);
    }
    var yearly := PrintYearlyEvents(sky, loc, anchors, fullMoons, now);
    if yearly.Err? {
      return Err(YearlyFailed(yearly.error));
    }
    assert yearly.value == YearlyReport(b.prev.value, b.next.value, yearly.value.dawnAfterPrev, yearly.value.dawnAfterNext,
      Months(sky, loc, moons, b.next.value), yearly.value.currentMonth);
    var lengths := ListMonthLengths(sky, loc, moons, b.next.value);
    var range := YearRange(b.prev.value, b.next.value);
    r := Ok(Selection(monthNum, today.value.currentDay, today.value.daysInMonth, lengths, range));
  }

  /**
   * A reply is refused whenever a year is named; otherwise it comes exactly
   * when the current month and the year around `now` can both be built, and
   * then it lists one month length per full moon of that year, unknown exactly
   * when one of the month's bounding dawns is missing.
   */
  lemma SelectMeaning(sky: Sky, loc: Location, fullMoons: seq<Instant>, anchors: seq<Instant>, now: Instant, yearGiven: bool)
    requires WellDated(sky)
    ensures var r := Select(sky, loc, fullMoons, anchors, now, yearGiven);
      && (r.Ok? <==> !yearGiven && MonthOfToday(sky, loc, fullMoons, now).Ok? && YearlyEvents(sky, loc, anchors, fullMoons, now).Ok?)
      && (r.Ok? ==>
        var y := YearlyEvents(sky, loc, anchors, fullMoons, now).value;
        && |r.value.monthsInYear| == |y.months|
        && (forall m :: m in MoonsOf(y.months) <==> m in fullMoons && y.prevAnchor <= m < y.nextAnchor)
        && (forall i :: 0 <= i < |y.months| ==>
              (r.value.monthsInYear[i].None? <==> y.months[i].start.time.None? || y.months[i].close.time.None?)))
  {
    var r := Select(sky, loc, fullMoons, anchors, now, yearGiven);
    if r.Ok? {
      YearlyEventsConsistent(sky, loc, anchors, fullMoons, now);
      var y := YearlyEvents(sky, loc, anchors, fullMoons, now).value;
      assert r.value.monthsInYear == MonthLengths(y.months);
      forall i | 0 <= i < |y.months|
        ensures r.value.monthsInYear[i].None? <==> y.months[i].start.time.None? || y.months[i].close.time.None?
      {
        var moons := InRange(fullMoons, y.prevAnchor, y.nextAnchor);
        assert y.months[i] == MonthAt(sky, loc, moons, y.nextAnchor, i);
      }
    }
  }
}
