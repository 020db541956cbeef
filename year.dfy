/**
 * The yearly cycle (backend/astronomy/year.py): a year runs from one new-year
 * anchor to the next; its months start at the first dawn after each full moon
 * in that span, and each month closes at the first dawn after the following
 * full moon (the next anchor for the last month).
 */
module Year {
  import opened Wrappers
  import opened Instants
  import opened Sun
  import opened Tables
  import opened Moon

  /** One month of a year: its full moon, opening dawn, closing dawn and length in dawn cycles. */
  datatype MonthSpan = MonthSpan(fullMoon: Instant, start: Event, close: Event, days: Option<int>)

  /** The full moon whose following dawn closes month `j`: the next full moon, or the next anchor after the last. */
  function CloseMoon(moons: seq<Instant>, nextAnchor: Instant, j: nat): Instant
    requires j < |moons|
  {
    if j + 1 < |moons| then moons[j + 1] else nextAnchor
  }

  /** Month `j` of a year whose full moons are `moons`. */
  function MonthAt(sky: Sky, loc: Location, moons: seq<Instant>, nextAnchor: Instant, j: nat): MonthSpan
    requires WellDated(sky)
    requires j < |moons|
  {
    var start := FirstDawnAfter(sky, loc, moons[j], SearchHorizon);
    var close := FirstDawnAfter(sky, loc, CloseMoon(moons, nextAnchor, j), SearchHorizon);
    var days := if start.time.Some? && close.time.Some? then Some(DawnCycles(sky, loc, start.time.value, close.time.value)) else None;
    MonthSpan(moons[j], start, close, days)
  }

  /** All months of the year, one per full moon. */
  function Months(sky: Sky, loc: Location, moons: seq<Instant>, nextAnchor: Instant): seq<MonthSpan>
    requires WellDated(sky)
  {
    seq(|moons|, j requires 0 <= j < |moons| => MonthAt(sky, loc, moons, nextAnchor, j))
  }

  /** Month `j` opens at the first dawn after its full moon and closes at the first dawn after the closing moon. */
  lemma MonthEnds(sky: Sky, loc: Location, moons: seq<Instant>, nextAnchor: Instant, j: nat)
    requires WellDated(sky)
    requires j < |moons|
    ensures var m := Months(sky, loc, moons, nextAnchor)[j];
      && m.start == FirstDawnAfter(sky, loc, moons[j], SearchHorizon)
      && m.close == FirstDawnAfter(sky, loc, CloseMoon(moons, nextAnchor, j), SearchHorizon)
  {
    assert Months(sky, loc, moons, nextAnchor)[j] == MonthAt(sky, loc, moons, nextAnchor, j);
  }

  /** One pass of the month loop: month `j`'s dawns and length. */
  method BuildMonth(sky: Sky, loc: Location, moons: seq<Instant>, nextAnchor: Instant, j: nat) returns (m: MonthSpan)
    requires WellDated(sky)
    requires j < |moons|
    ensures m == MonthAt(sky, loc, moons, nextAnchor, j)
  {
    var start := FindFirstDawnAfter(sky, loc, moons[j]);
    var closeMoon := if j + 1 < |moons| then moons[j + 1] else nextAnchor;
    var close := FindFirstDawnAfter(sky, loc, closeMoon);
    var days: Option<int> := None;
    if start.time.Some? && close.time.Some? {
      var n := CountDawnCycles(sky, loc, start.time.value, close.time.value);
      days := Some(n);
    }
    m := MonthSpan(moons[j], start, close, days);
  }

  /** The month loop of `print_yearly_events`, `get_multi_year_calendar_data`, `get_calendar_for_year` and `select_location`. */
  method BuildMonths(sky: Sky, loc: Location, moons: seq<Instant>, nextAnchor: Instant) returns (ms: seq<MonthSpan>)
    requires WellDated(sky)
    ensures ms == Months(sky, loc, moons, nextAnchor)
  {
    ms := [];
    for j := 0 to |moons|
      invariant |ms| == j
      invariant forall k :: 0 <= k < j ==> ms[k] == MonthAt(sky, loc, moons, nextAnchor, k)
    {
      var m := BuildMonth(sky, loc, moons, nextAnchor, j);
      ms := ms + [m];
    }
  }

  /**
   * The months tile the year: each month closes at the dawn that opens the
   * next one, the last closes at the first dawn after the next anchor, and the
   * length is known exactly when both dawns are.
   */
  lemma MonthsTile(sky: Sky, loc: Location, moons: seq<Instant>, nextAnchor: Instant)
    requires WellDated(sky)
    ensures var ms := Months(sky, loc, moons, nextAnchor);
      && |ms| == |moons|
      && (forall j :: 0 <= j < |ms| ==> ms[j].fullMoon == moons[j])
      && (forall j :: 0 <= j < |ms| - 1 ==> ms[j].close == ms[j + 1].start)
      && (|ms| > 0 ==> ms[|ms| - 1].close == FirstDawnAfter(sky, loc, nextAnchor, SearchHorizon))
      && (forall j :: 0 <= j < |ms| ==> (ms[j].days.Some? <==> ms[j].start.time.Some? && ms[j].close.time.Some?))
  {
    var ms := Months(sky, loc, moons, nextAnchor);
    forall j | 0 <= j < |ms|
      ensures ms[j].fullMoon == moons[j]
      ensures ms[j].days.Some? <==> ms[j].start.time.Some? && ms[j].close.time.Some?
    {
      assert ms[j] == MonthAt(sky, loc, moons, nextAnchor, j);
    }
    forall j | 0 <= j < |ms| - 1
      ensures ms[j].close == ms[j + 1].start
    {
      MonthLink(sky, loc, moons, nextAnchor, j);
    }
    if |ms| > 0 {
      assert ms[|ms| - 1] == MonthAt(sky, loc, moons, nextAnchor, |ms| - 1);
    }
  }

  /** Month `j` closes at the dawn that opens month `j + 1`. */
  lemma MonthLink(sky: Sky, loc: Location, moons: seq<Instant>, nextAnchor: Instant, j: nat)
    requires WellDated(sky)
    requires j + 1 < |moons|
    ensures MonthAt(sky, loc, moons, nextAnchor, j).close == MonthAt(sky, loc, moons, nextAnchor, j + 1).start
  {
    assert CloseMoon(moons, nextAnchor, j) == moons[j + 1];
  }

  /** A month whose opening dawn precedes its closing dawn has at least one day. */
  lemma MonthLengthPositive(sky: Sky, loc: Location, moons: seq<Instant>, nextAnchor: Instant, j: nat)
    requires WellDated(sky)
    requires j < |moons|
    ensures var m := MonthAt(sky, loc, moons, nextAnchor, j);
      m.days.Some? && m.start.time.value < m.close.time.value ==> m.days.value >= 1
  {
    var m := MonthAt(sky, loc, moons, nextAnchor, j);
    if m.days.Some? {
      MonthDawnsShape(sky, loc, m.start.time.value, m.close.time.value);
    }
  }

  // ---------------------------------------------------------------------------
  // Which month contains an instant

  /** Both dawns of the month are known and `now` lies between them. */
  predicate Contains(m: MonthSpan, now: Instant) {
    m.start.time.Some? && m.close.time.Some? && m.start.time.value <= now < m.close.time.value
  }

  /** The 1-based number of the first month from index `i` that contains `now`. */
  function MonthContainingFrom(ms: seq<MonthSpan>, now: Instant, i: nat): Option<nat>
    decreases |ms| - i
  {
    if i >= |ms| then None
    else if Contains(ms[i], now) then Some(i + 1)
    else MonthContainingFrom(ms, now, i + 1)
  }

  /** The scan for the current month, shared by `print_yearly_events` and `select_location`. */
  method FindMonthContaining(ms: seq<MonthSpan>, now: Instant) returns (k: Option<nat>)
    ensures k == MonthContainingFrom(ms, now, 0)
  {
    for i := 0 to |ms|
      invariant MonthContainingFrom(ms, now, i) == MonthContainingFrom(ms, now, 0)
    {
      if Contains(ms[i], now) {
        return Some(i + 1);
      }
    }
    return None;
  }

  lemma {:induction false} MonthContainingFromMeaning(ms: seq<MonthSpan>, now: Instant, i: nat)
    ensures var k := MonthContainingFrom(ms, now, i);
      && (k.Some? ==> (i < k.value <= |ms| && Contains(ms[k.value - 1], now)
            && forall j :: i <= j < k.value - 1 ==> !Contains(ms[j], now)))
      && (k.None? ==> forall j :: i <= j < |ms| ==> !Contains(ms[j], now))
    decreases |ms| - i
  {
    if i < |ms| && !Contains(ms[i], now) {
      MonthContainingFromMeaning(ms, now, i + 1);
    }
  }

  /** The scan finds the first month containing `now`, and finds none exactly when no month contains it. */
  lemma MonthContainingMeaning(ms: seq<MonthSpan>, now: Instant)
    ensures var k := MonthContainingFrom(ms, now, 0);
      && (k.Some? ==> (1 <= k.value <= |ms| && Contains(ms[k.value - 1], now)
            && forall j :: 0 <= j < k.value - 1 ==> !Contains(ms[j], now)))
      && (k.None? <==> forall j :: 0 <= j < |ms| ==> !Contains(ms[j], now))
  {
    MonthContainingFromMeaning(ms, now, 0);
  }

  /** Python exceptions the yearly report can raise. */
  datatype YearFault =
    | NoAnchorBracket   // an anchor is missing: NaT has no `astimezone`
    | NoMonths          // IndexError: `month_dawns[0]` of an empty year
    | MissingFirstDawn  // TypeError: comparing `now` with a missing first dawn

  /** `print_yearly_events`' current month: the scan, else 1 before the first month's dawn, else the last month. */
  function YearCurrentMonth(ms: seq<MonthSpan>, now: Instant): Result<int, YearFault> {
    match MonthContainingFrom(ms, now, 0)
    case Some(k) => Ok(k)
    case None =>
      if |ms| == 0 then Err(NoMonths)
      else if ms[0].start.time.None? then Err(MissingFirstDawn)
      else if now < ms[0].start.time.value then Ok(1)
      else Ok(|ms|)
  }

  /** The current month is a month of the year; the year fails only when the scan finds nothing and its first dawn is unusable. */
  lemma YearCurrentMonthInRange(ms: seq<MonthSpan>, now: Instant)
    ensures var r := YearCurrentMonth(ms, now);
      && (r.Ok? ==> 1 <= r.value <= |ms|)
      && (r.Err? <==> (forall j :: 0 <= j < |ms| ==> !Contains(ms[j], now)) && (|ms| == 0 || ms[0].start.time.None?))
      && (r == Err(NoMonths) <==> |ms| == 0)
  {
    MonthContainingMeaning(ms, now);
  }

  /** What `print_yearly_events` prints, as data. */
  datatype YearlyReport = YearlyReport(
    prevAnchor: Instant, nextAnchor: Instant,
    dawnAfterPrev: Event, dawnAfterNext: Event,
    months: seq<MonthSpan>, currentMonth: int)

  function YearlyEvents(sky: Sky, loc: Location, anchors: seq<Instant>, fullMoons: seq<Instant>, now: Instant): Result<YearlyReport, YearFault>
    requires WellDated(sky)
  {
    var b := BracketAround(anchors, now);
    if b.prev.None? || b.next.None? then Err(NoAnchorBracket)
    else
      var p := FirstDawnAfter(sky, loc, b.prev.value, SearchHorizon);
      var n := FirstDawnAfter(sky, loc, b.next.value, SearchHorizon);
      var ms := Months(sky, loc, InRange(fullMoons, b.prev.value, b.next.value), b.next.value);
      match YearCurrentMonth(ms, now)
      case Err(f) => Err(f)
      case Ok(k) => Ok(YearlyReport(b.prev.value, b.next.value, p, n, ms, k))
  }

  /** `print_yearly_events`, with the clock reading `now` as a parameter. */
  method PrintYearlyEvents(sky: Sky, loc: Location, anchors: seq<Instant>, fullMoons: seq<Instant>, now: Instant)
    returns (r: Result<YearlyReport, YearFault>)
    requires WellDated(sky)
    ensures r == YearlyEvents(sky, loc, anchors, fullMoons, now)
  {
    var b := BracketAround(anchors, now);
    if b.prev.None? || b.next.None? {
      return Err(NoAnchorBracket);
    }
    var p := FindFirstDawnAfter(sky, loc, b.prev.value);
    var n := FindFirstDawnAfter(sky, loc, b.next.value);
    var moons := InRange(fullMoons, b.prev.value, b.next.value);
    var ms := BuildMonths(sky, loc, moons, b.next.value);
    var k := FindMonthContaining(ms, now);
    if k.Some? {
      return Ok(YearlyReport(b.prev.value, b.next.value, p, n, ms, k.value));
    }
    if |ms| == 0 {
      return Err(NoMonths);
    }
    if ms[0].start.time.None? {
      return Err(MissingFirstDawn);
    }
    var month := if now < ms[0].start.time.value then 1 else |ms|;
    r := Ok(YearlyReport(b.prev.value, b.next.value, p, n, ms, month));
  }

  /**
   * A yearly report spans the anchors around `now`, has one month per full
   * moon in `[prevAnchor, nextAnchor)`, and names a current month of that year.
   */
  lemma YearlyEventsConsistent(sky: Sky, loc: Location, anchors: seq<Instant>, fullMoons: seq<Instant>, now: Instant)
    requires WellDated(sky)
    ensures var r := YearlyEvents(sky, loc, anchors, fullMoons, now);
      r.Ok? ==>
        && r.value.prevAnchor <= now < r.value.nextAnchor
        && (forall m :: m in fullMoons && r.value.prevAnchor <= m < r.value.nextAnchor <==> m in MoonsOf(r.value.months))
        && 1 <= r.value.currentMonth <= |r.value.months|
  {
    var r := YearlyEvents(sky, loc, anchors, fullMoons, now);
    if r.Ok? {
      var b := BracketAround(anchors, now);
      var moons := InRange(fullMoons, b.prev.value, b.next.value);
      var ms := Months(sky, loc, moons, b.next.value);
      assert r.value.months == ms;
      MonthsTile(sky, loc, moons, b.next.value);
      assert MoonsOf(ms) == moons;
      YearCurrentMonthInRange(ms, now);
    }
  }

  /** The full moons the months were built from. */
  function MoonsOf(ms: seq<MonthSpan>): (moons: seq<Instant>)
    ensures |moons| == |ms| && forall j :: 0 <= j < |ms| ==> moons[j] == ms[j].fullMoon
  {
    seq(|ms|, j requires 0 <= j < |ms| => ms[j].fullMoon)
  }
}
