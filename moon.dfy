/**
 * Lunar months measured in dawns (backend/astronomy/moon.py): the first dawn
 * after a full moon, the dawns of a month, the month length in dawn-to-dawn
 * cycles and the current day of the month.
 */
module Moon {
  import opened Wrappers
  import opened Instants
  import opened Sun
  import opened Tables

  /** `find_first_dawn_after` tries the local date of the instant and the nine dates after it. */
  const SearchHorizon: nat := 10

  /** The resolved dawn of date `d` exists and is strictly after `t`. */
  predicate DawnAfter(sky: Sky, loc: Location, t: Instant, d: Day) {
    var e := Resolved(sky, Dawn, loc, d);
    e.time.Some? && e.time.value > t
  }

  /** The first of dates `date + i`, ..., `date + horizon - 1` whose dawn is after `t`. */
  function FirstDawnFrom(sky: Sky, loc: Location, t: Instant, date: Day, i: nat, horizon: nat): Event
    decreases horizon - i
  {
    if i >= horizon then Event(None, NotFound)
    else if DawnAfter(sky, loc, t, date + i) then Resolved(sky, Dawn, loc, date + i)
    else FirstDawnFrom(sky, loc, t, date, i + 1, horizon)
  }

  /** The first dawn strictly after `t`, searching `horizon` dates from the local date of `t`. */
  function FirstDawnAfter(sky: Sky, loc: Location, t: Instant, horizon: nat): Event {
    FirstDawnFrom(sky, loc, t, LocalDate(t, loc.offset), 0, horizon)
  }

  /** `find_first_dawn_after`. */
  method FindFirstDawnAfter(sky: Sky, loc: Location, t: Instant) returns (e: Event)
    ensures e == FirstDawnAfter(sky, loc, t, SearchHorizon)
  {
    var date := LocalDate(t, loc.offset);
    for i := 0 to SearchHorizon
      invariant FirstDawnFrom(sky, loc, t, date, i, SearchHorizon) == FirstDawnAfter(sky, loc, t, SearchHorizon)
    {
      var dawn := GetEventWithFallback(sky, Dawn, loc, date + i);
      if dawn.time.Some? && dawn.time.value > t {
        return dawn;
      }
    }
    return Event(None, NotFound);
  }

  lemma {:induction false} FirstDawnFromMeaning(sky: Sky, loc: Location, t: Instant, date: Day, i: nat, horizon: nat)
    ensures var e := FirstDawnFrom(sky, loc, t, date, i, horizon);
      && (e.time.None? <==> e.tag == NotFound)
      && (e.time.Some? ==> exists d :: (date + i <= d < date + horizon
            && e == Resolved(sky, Dawn, loc, d) && e.time.value > t
            && (forall m :: date + i <= m < d ==> !DawnAfter(sky, loc, t, m))))
      && (e.time.None? ==> forall m :: date + i <= m < date + horizon ==> !DawnAfter(sky, loc, t, m))
    decreases horizon - i
  {
    if i < horizon {
      if DawnAfter(sky, loc, t, date + i) {
        ResolvedTierOrder(sky, Dawn, loc, date + i);
      } else {
        FirstDawnFromMeaning(sky, loc, t, date, i + 1, horizon);
      }
    }
  }

  /**
   * The first dawn after `t`: when found it is strictly after `t`, it is the
   * resolved dawn (with its tag) of the earliest searched date whose dawn is
   * after `t`; when not found, no searched date has a dawn after `t` and the tag
   * is `not_found`.
   */
  lemma FirstDawnAfterMeaning(sky: Sky, loc: Location, t: Instant, horizon: nat)
    ensures var e := FirstDawnAfter(sky, loc, t, horizon);
      var date := LocalDate(t, loc.offset);
      && (e.time.None? <==> e.tag == NotFound)
      && (e.time.Some? ==> exists d :: (date <= d < date + horizon
            && e == Resolved(sky, Dawn, loc, d) && e.time.value > t
            && (forall m :: date <= m < d ==> !DawnAfter(sky, loc, t, m))))
      && (e.time.None? ==> forall m :: date <= m < date + horizon ==> !DawnAfter(sky, loc, t, m))
  {
    FirstDawnFromMeaning(sky, loc, t, LocalDate(t, loc.offset), 0, horizon);
  }

  // ---------------------------------------------------------------------------
  // The dawns of a month

  /** The resolved dawn of the local date after the one containing `cur`. */
  function NextDawn(sky: Sky, loc: Location, cur: Instant): Option<Instant> {
    Resolved(sky, Dawn, loc, LocalDate(cur + SecondsPerDay, loc.offset)).time
  }

  /** The next dawn falls on a later local date, so it is strictly later. */
  lemma NextDawnIsLater(sky: Sky, loc: Location, cur: Instant)
    requires WellDated(sky)
    ensures NextDawn(sky, loc, cur).Some? ==>
      && LocalDate(NextDawn(sky, loc, cur).value, loc.offset) > LocalDate(cur, loc.offset)
      && NextDawn(sky, loc, cur).value > cur
  {
    NextDayDate(cur, loc.offset);
    ResolvedNotBeforeDate(sky, Dawn, loc, LocalDate(cur + SecondsPerDay, loc.offset));
    if NextDawn(sky, loc, cur).Some? {
      LaterDateLaterInstant(cur, NextDawn(sky, loc, cur).value, loc.offset);
    }
  }

  /** Local dates from `cur` to `end`, or 0 when `end` is on an earlier date. */
  function DateGap(cur: Instant, end: Instant, offset: int): nat {
    var g := LocalDate(end, offset) - LocalDate(cur, offset);
    if g < 0 then 0 else g
  }

  /** The dawns collected after `cur`: next-day dawns while they exist and do not pass `end`. */
  function DawnsFrom(sky: Sky, loc: Location, cur: Instant, end: Instant): seq<Instant>
    requires WellDated(sky)
    decreases DateGap(cur, end, loc.offset)
  {
    var next := NextDawn(sky, loc, cur);
    if next.None? || next.value > end then []
    else
      NextDawnIsLater(sky, loc, cur);
      LocalDateMonotone(next.value, end, loc.offset);
      [next.value] + DawnsFrom(sky, loc, next.value, end)
  }

  /** The element before `r[i]` in the chain `[cur] + r`. */
  function Before(cur: Instant, r: seq<Instant>, i: nat): Instant
    requires i <= |r|
  {
    if i == 0 then cur else r[i - 1]
  }

  /** Each element of `r` is the next dawn of its predecessor in `[cur] + r`. */
  predicate NextDawnLinks(sky: Sky, loc: Location, cur: Instant, r: seq<Instant>) {
    forall i :: 0 <= i < |r| ==> NextDawn(sky, loc, Before(cur, r, i)) == Some(r[i])
  }

  /** Each element of `r` is later than its predecessor in `[cur] + r` and not after `end`. */
  predicate RisingTo(cur: Instant, r: seq<Instant>, end: Instant) {
    forall i :: 0 <= i < |r| ==> Before(cur, r, i) < r[i] <= end
  }

  /** The predecessor of `r[i]` in `[cur, x] + rest`, for `r == [x] + rest`, shifts by one. */
  lemma BeforeCons(cur: Instant, x: Instant, rest: seq<Instant>, i: nat)
    requires 1 <= i <= |rest| + 1
    ensures Before(cur, [x] + rest, i) == Before(x, rest, i - 1)
  {
  }

  lemma NextDawnLinksCons(sky: Sky, loc: Location, cur: Instant, x: Instant, rest: seq<Instant>)
    requires NextDawn(sky, loc, cur) == Some(x) && NextDawnLinks(sky, loc, x, rest)
    ensures NextDawnLinks(sky, loc, cur, [x] + rest)
  {
    var r := [x] + rest;
    forall i | 1 <= i < |r|
      ensures NextDawn(sky, loc, Before(cur, r, i)) == Some(r[i])
    {
      BeforeCons(cur, x, rest, i);
      assert r[i] == rest[i - 1];
    }
  }

  lemma RisingToCons(cur: Instant, x: Instant, rest: seq<Instant>, end: Instant)
    requires cur < x <= end && RisingTo(x, rest, end)
    ensures RisingTo(cur, [x] + rest, end)
  {
    var r := [x] + rest;
    forall i | 1 <= i < |r|
      ensures Before(cur, r, i) < r[i] <= end
    {
      BeforeCons(cur, x, rest, i);
      assert r[i] == rest[i - 1];
    }
  }

  /**
   * The collected dawns form a chain from `cur`: each is the next dawn of its
   * predecessor, each is later than its predecessor and not after `end`, and
   * the chain stops exactly where the next dawn is missing or passes `end`.
   */
  lemma {:induction false} DawnsFromChain(sky: Sky, loc: Location, cur: Instant, end: Instant)
    requires WellDated(sky)
    ensures var r := DawnsFrom(sky, loc, cur, end);
      && NextDawnLinks(sky, loc, cur, r)
      && RisingTo(cur, r, end)
      && (NextDawn(sky, loc, Before(cur, r, |r|)).None? || NextDawn(sky, loc, Before(cur, r, |r|)).value > end)
    decreases DateGap(cur, end, loc.offset)
  {
    var next := NextDawn(sky, loc, cur);
    DawnsFromStep(sky, loc, cur, end);
    if next.Some? && next.value <= end {
      NextDawnIsLater(sky, loc, cur);
      DawnsFromChain(sky, loc, next.value, end);
      var rest := DawnsFrom(sky, loc, next.value, end);
      NextDawnLinksCons(sky, loc, cur, next.value, rest);
      RisingToCons(cur, next.value, rest, end);
      BeforeCons(cur, next.value, rest, |rest| + 1);
    }
  }

  /** A chain whose every link increases is strictly increasing and lies after its head. */
  lemma {:induction false} LinksIncreasing(cur: Instant, r: seq<Instant>)
    requires forall i :: 0 <= i < |r| ==> Before(cur, r, i) < r[i]
    ensures StrictlyIncreasing([cur] + r)
    decreases |r|
  {
    if |r| > 0 {
      var tail := r[1..];
      assert forall i :: 0 <= i < |tail| ==> Before(r[0], tail, i) == Before(cur, r, i + 1);
      LinksIncreasing(r[0], tail);
      assert r == [r[0]] + tail;
      forall t | t in r
        ensures cur < t
      {
        var j :| 0 <= j < |r| && r[j] == t;
        if j > 0 {
          assert ([r[0]] + tail)[0] < ([r[0]] + tail)[j];
        }
      }
      PrependIncreasing(cur, r);
    }
  }

  /** The month's dawns from `start`, with `end` appended when the last collected dawn is before it. */
  function MonthDawns(sky: Sky, loc: Location, start: Instant, end: Instant): seq<Instant>
    requires WellDated(sky)
  {
    var ds := [start] + DawnsFrom(sky, loc, start, end);
    if ds[|ds| - 1] < end then ds + [end] else ds
  }

  /**
   * The month's dawns start at `start`, strictly increase, never pass `end`
   * after the first, and end exactly at `end` whenever `start <= end`; a month
   * that starts after its end is the single dawn `start`.
   */
  lemma MonthDawnsShape(sky: Sky, loc: Location, start: Instant, end: Instant)
    requires WellDated(sky)
    ensures var ds := MonthDawns(sky, loc, start, end);
      && |ds| >= 1 && ds[0] == start
      && StrictlyIncreasing(ds)
      && (forall i :: 1 <= i < |ds| ==> ds[i] <= end)
      && (start <= end ==> ds[|ds| - 1] == end)
      && (start < end ==> |ds| >= 2)
      && (start > end ==> ds == [start])
  {
    CollectedBounded(sky, loc, start, end);
    ClosedChain(start, DawnsFrom(sky, loc, start, end), end);
  }

  /** The shape of `[start] + r`, closed with `end`, for a chain `r` after `start` bounded by `end`. */
  lemma ClosedChain(start: Instant, r: seq<Instant>, end: Instant)
    requires StrictlyIncreasing([start] + r)
    requires forall i :: 0 <= i < |r| ==> start < r[i] <= end
    ensures var ds := [start] + r;
      var m := if ds[|ds| - 1] < end then ds + [end] else ds;
      && |m| >= 1 && m[0] == start
      && StrictlyIncreasing(m)
      && (forall i :: 1 <= i < |m| ==> m[i] <= end)
      && (start <= end ==> m[|m| - 1] == end)
      && (start < end ==> |m| >= 2)
      && (start > end ==> m == [start])
  {
    var ds := [start] + r;
    forall i | 1 <= i < |ds|
      ensures ds[i] <= end
    {
      assert ds[i] == r[i - 1];
    }
    CloseWithEnd(ds, end);
  }

  /** The dawns collected after `start` are strictly increasing from `start` and none passes `end`. */
  lemma CollectedBounded(sky: Sky, loc: Location, start: Instant, end: Instant)
    requires WellDated(sky)
    ensures var r := DawnsFrom(sky, loc, start, end);
      && StrictlyIncreasing([start] + r)
      && forall i :: 0 <= i < |r| ==> start < r[i] <= end
  {
    DawnsFromChain(sky, loc, start, end);
    var r := DawnsFrom(sky, loc, start, end);
    LinksIncreasing(start, r);
    forall i | 0 <= i < |r|
      ensures start < r[i]
    {
      assert ([start] + r)[0] < ([start] + r)[i + 1];
    }
  }

  /** Appending `end` to a strictly increasing list bounded by it keeps it strictly increasing and makes it end at `end`. */
  lemma CloseWithEnd(ds: seq<Instant>, end: Instant)
    requires |ds| >= 1 && StrictlyIncreasing(ds)
    requires forall i :: 1 <= i < |ds| ==> ds[i] <= end
    ensures var m := if ds[|ds| - 1] < end then ds + [end] else ds;
      && |m| >= 1 && m[0] == ds[0]
      && StrictlyIncreasing(m)
      && (forall i :: 1 <= i < |m| ==> m[i] <= end)
      && (ds[0] <= end ==> m[|m| - 1] == end)
      && (ds[0] < end ==> |m| >= 2)
  {
    if ds[|ds| - 1] < end {
      var m := ds + [end];
      forall i, j | 0 <= i < j < |m|
        ensures m[i] < m[j]
      {
        if j == |ds| {
          assert m[i] == ds[i] <= ds[|ds| - 1];
        } else {
          assert m[i] == ds[i] && m[j] == ds[j];
        }
      }
    }
  }

  /** `count_dawn_cycles`: the number of dawn-to-dawn cycles of the month. */
  function DawnCycles(sky: Sky, loc: Location, start: Instant, end: Instant): int
    requires WellDated(sky)
  {
    |MonthDawns(sky, loc, start, end)| - 1
  }

  /** One step of the collection: the next dawn is taken when it exists and does not pass `end`, and the date gap shrinks. */
  lemma DawnsFromStep(sky: Sky, loc: Location, cur: Instant, end: Instant)
    requires WellDated(sky)
    ensures var next := NextDawn(sky, loc, cur);
      && (next.None? || next.value > end ==> DawnsFrom(sky, loc, cur, end) == [])
      && (next.Some? && next.value <= end ==>
            && DawnsFrom(sky, loc, cur, end) == [next.value] + DawnsFrom(sky, loc, next.value, end)
            && DateGap(next.value, end, loc.offset) < DateGap(cur, end, loc.offset))
  {
    var next := NextDawn(sky, loc, cur);
    if next.Some? && next.value <= end {
      NextDawnIsLater(sky, loc, cur);
      LocalDateMonotone(next.value, end, loc.offset);
    }
  }

  /** The loop shared by `count_dawn_cycles` and `print_today_moon_events`. */
  method CollectDawns(sky: Sky, loc: Location, start: Instant, end: Instant) returns (dawns: seq<Instant>)
    requires WellDated(sky)
    ensures dawns == MonthDawns(sky, loc, start, end)
  {
    ghost var all := [start] + DawnsFrom(sky, loc, start, end);
    dawns := [start];
    var current := start;
    while true
      invariant |dawns| >= 1 && current == dawns[|dawns| - 1]
      invariant dawns + DawnsFrom(sky, loc, current, end) == all
      decreases DateGap(current, end, loc.offset)
    {
      var next := GetEventWithFallback(sky, Dawn, loc, LocalDate(current + SecondsPerDay, loc.offset));
      assert next.time == NextDawn(sky, loc, current);
      DawnsFromStep(sky, loc, current, end);
      if next.time.None? || next.time.value > end {
        assert dawns == all;
        break;
      }
      var rest := DawnsFrom(sky, loc, next.time.value, end);
      assert dawns + [next.time.value] + rest == dawns + ([next.time.value] + rest);
      dawns := dawns + [next.time.value];
      current := next.time.value;
    }
    if dawns[|dawns| - 1] < end {
      dawns := dawns + [end];
    }
  }

  /** `count_dawn_cycles`. */
  method CountDawnCycles(sky: Sky, loc: Location, start: Instant, end: Instant) returns (n: int)
    requires WellDated(sky)
    ensures n == DawnCycles(sky, loc, start, end)
    ensures start < end ==> n >= 1
    ensures start >= end ==> n == 0
  {
    var dawns := CollectDawns(sky, loc, start, end);
    MonthDawnsShape(sky, loc, start, end);
    n := |dawns| - 1;
  }

  // ---------------------------------------------------------------------------
  // The current day of the month

  /** The first interval `[dawns[i], dawns[i+1])` from index `i` on that contains `now`, as a 1-based day. */
  function IntervalFrom(dawns: seq<Instant>, now: Instant, i: nat): Option<nat>
    decreases |dawns| - i
  {
    if i + 1 >= |dawns| then None
    else if dawns[i] <= now < dawns[i + 1] then Some(i + 1)
    else IntervalFrom(dawns, now, i + 1)
  }

  /** The day of the month `now` falls on; before the first dawn it is 1, otherwise the last day. */
  function CurrentDay(dawns: seq<Instant>, now: Instant, days: int): int {
    match IntervalFrom(dawns, now, 0)
    case Some(k) => k
    case None => if |dawns| > 0 && now < dawns[0] then 1 else days
  }

  /** The scan in `print_today_moon_events`. */
  method LocateDay(dawns: seq<Instant>, now: Instant, days: int) returns (day: int)
    requires |dawns| >= 1
    ensures day == CurrentDay(dawns, now, days)
  {
    var i := 0;
    while i < |dawns| - 1
      invariant 0 <= i <= |dawns| - 1
      invariant IntervalFrom(dawns, now, i) == IntervalFrom(dawns, now, 0)
    {
      if dawns[i] <= now < dawns[i + 1] {
        return i + 1;
      }
      i := i + 1;
    }
    if now < dawns[0] {
      day := 1;
    } else {
      day := days;
    }
  }

  lemma {:induction false} IntervalFromMeaning(dawns: seq<Instant>, now: Instant, i: nat)
    ensures var r := IntervalFrom(dawns, now, i);
      && (r.Some? ==> i < r.value < |dawns| && dawns[r.value - 1] <= now < dawns[r.value])
      && (r.None? ==> forall j :: i <= j < |dawns| - 1 ==> !(dawns[j] <= now < dawns[j + 1]))
    decreases |dawns| - i
  {
    if i + 1 < |dawns| && !(dawns[i] <= now < dawns[i + 1]) {
      IntervalFromMeaning(dawns, now, i + 1);
    }
  }

  lemma {:induction false} IntervalFound(dawns: seq<Instant>, now: Instant, i: nat)
    requires i < |dawns| - 1
    requires dawns[i] <= now < dawns[|dawns| - 1]
    requires StrictlyIncreasing(dawns)
    ensures IntervalFrom(dawns, now, i).Some?
    decreases |dawns| - i
  {
    if !(now < dawns[i + 1]) {
      IntervalFound(dawns, now, i + 1);
    }
  }

  /**
   * For a month of `days = |dawns| - 1 >= 1` cycles, the current day lies in
   * `1..days`; between the first and last dawn it is the day whose interval
   * holds `now`; before the first dawn it is 1 and from the last dawn on it is
   * the last day.
   */
  lemma CurrentDayMeaning(dawns: seq<Instant>, now: Instant)
    requires |dawns| >= 2
    requires StrictlyIncreasing(dawns)
    ensures var day := CurrentDay(dawns, now, |dawns| - 1);
      && 1 <= day <= |dawns| - 1
      && (dawns[0] <= now < dawns[|dawns| - 1] ==> dawns[day - 1] <= now < dawns[day])
      && (now < dawns[0] ==> day == 1)
      && (now >= dawns[|dawns| - 1] ==> day == |dawns| - 1)
  {
    IntervalFromMeaning(dawns, now, 0);
    if dawns[0] <= now < dawns[|dawns| - 1] {
      IntervalFound(dawns, now, 0);
    }
  }

  // ---------------------------------------------------------------------------
  // Today's moon events

  datatype MoonFault = NoFullMoonBracket

  /**
   * What `print_today_moon_events` reports: the bracketing full moons, the first
   * dawn after each, and, when both dawns exist, the month length and today's day.
   */
  datatype MoonReport = MoonReport(
    prevFull: Instant, nextFull: Instant,
    dawnAfterPrev: Event, dawnAfterNext: Event,
    days: Option<int>, currentDay: Option<int>)

  function TodayMoon(sky: Sky, loc: Location, fullMoons: seq<Instant>, now: Instant): Result<MoonReport, MoonFault>
    requires WellDated(sky)
  {
    var b := BracketAround(fullMoons, now);
    if b.prev.None? || b.next.None? then Err(NoFullMoonBracket)
    else
      var p := FirstDawnAfter(sky, loc, b.prev.value, SearchHorizon);
      var n := FirstDawnAfter(sky, loc, b.next.value, SearchHorizon);
      if p.time.Some? && n.time.Some? then
        var ds := MonthDawns(sky, loc, p.time.value, n.time.value);
        var days := |ds| - 1;
        Ok(MoonReport(b.prev.value, b.next.value, p, n, Some(days), Some(CurrentDay(ds, now, days))))
      else Ok(MoonReport(b.prev.value, b.next.value, p, n, None, None))
  }

  /** `print_today_moon_events`, with the clock reading `now` as a parameter. */
  method PrintTodayMoonEvents(sky: Sky, loc: Location, fullMoons: seq<Instant>, now: Instant)
    returns (r: Result<MoonReport, MoonFault>)
    requires WellDated(sky)
    ensures r == TodayMoon(sky, loc, fullMoons, now)
  {
    var b := BracketAround(fullMoons, now);
    if b.prev.None? || b.next.None? {
      return Err(NoFullMoonBracket);
    }
    var p := FindFirstDawnAfter(sky, loc, b.prev.value);
    var n := FindFirstDawnAfter(sky, loc, b.next.value);
    if p.time.Some? && n.time.Some? {
      var days := CountDawnCycles(sky, loc, p.time.value, n.time.value);
      var dawns := CollectDawns(sky, loc, p.time.value, n.time.value);
      var day := LocateDay(dawns, now, days);
      r := Ok(MoonReport(b.prev.value, b.next.value, p, n, Some(days), Some(day)));
    } else {
      r := Ok(MoonReport(b.prev.value, b.next.value, p, n, None, None));
    }
  }

  /**
   * A report with a month length brackets `now` between two full moons, and
   * when the first dawn after the previous full moon precedes the first dawn
   * after the next one, today's day lies in `1..days`.
   */
  lemma TodayMoonConsistent(sky: Sky, loc: Location, fullMoons: seq<Instant>, now: Instant)
    requires WellDated(sky)
    ensures var r := TodayMoon(sky, loc, fullMoons, now);
      && (r.Err? <==> BracketAround(fullMoons, now).prev.None? || BracketAround(fullMoons, now).next.None?)
      && (r.Ok? ==> r.value.prevFull <= now < r.value.nextFull)
      && (r.Ok? ==> (r.value.days.Some? <==> r.value.dawnAfterPrev.time.Some? && r.value.dawnAfterNext.time.Some?))
      && (r.Ok? && r.value.days.Some? && r.value.dawnAfterPrev.time.value < r.value.dawnAfterNext.time.value ==>
            1 <= r.value.currentDay.value <= r.value.days.value)
  {
    var r := TodayMoon(sky, loc, fullMoons, now);
    if r.Ok? && r.value.days.Some? {
      var p := r.value.dawnAfterPrev.time.value;
      var n := r.value.dawnAfterNext.time.value;
      MonthDawnsShape(sky, loc, p, n);
      if p < n {
        CurrentDayMeaning(MonthDawns(sky, loc, p, n), now);
      }
    }
  }
}
