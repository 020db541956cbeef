# Quantum Calendar — a verified model of the calendar engine

Quantum Calendar keeps a lunar calendar that is tied to the sky at the
observer's own location:

- a month begins at the first dawn after a full moon;
- a day runs from one dawn to the next;
- a year begins at the new-year full moon, an anchor chosen offline from the
  Moon's crossings of Spica and the Sun's crossing of Hamal.

The system works from two tables of precomputed instants, the full moons and
the new-year anchors, and from an astronomy library that answers "when is
dawn (or dusk) here on this local date, for this solar depression". From
these it computes:

- the length of the current month in dawn-to-dawn cycles, and today's day in
  it;
- the months of a year and of a range of years, with the current month;
- the calendar grid of each month;
- world maps: month-length heatmaps, day-type heatmaps and dawn sweeps.

Small services sit around the engine:

- a parser for coordinates that a user types;
- a time-zone guess from longitude;
- an etymology chain walker over Strong's numbers;
- the two offline scripts that pick the new-year anchors.

This project models that engine in Dafny and proves what it promises.

- **Time.** An instant is a whole number of seconds since the Unix epoch
  (UTC). A local date is `(t + offset) / 86400` in a fixed-offset zone
  (module `Instants`).
- **The astronomy library.** It is an oracle, `Sky`: given the event kind,
  the observer, the local date and the depression, it yields the event
  instant or nothing. The only thing the model assumes about it is
  `WellDated`: an event asked for on a local date never falls on an earlier
  date. That assumption is what makes the open-ended dawn loops terminate.
- **Form.** Code that loops and appends in the source becomes Dafny methods
  with loop invariants. Each such method is proved equal to a specification
  function, and lemmas state what the source promises about that function.
  Pure branching code becomes functions.
- **Python's parsers.** `float()` and `int()` on strings are function
  parameters: `floatOf` and `intOf` yield `None` where Python raises.
- **Network fetches.** Each one is a map from key to record.

Modules, one per part of the system:

| module | models |
|---|---|
| `Instants` | instants, offsets, local dates, the UTC calendar year of an instant |
| `Sun` | `get_event_with_fallback` and the sun-event lines (backend/astronomy/sun.py) |
| `Tables` | full-moon and anchor tables: brackets around now, range filters, the parsed-table cache |
| `Moon` | first dawn after an instant, dawn-cycle counting, current day (backend/astronomy/moon.py) |
| `Year` | the months of the current year and the current month (backend/astronomy/year.py) |
| `Years` | the multi-year calendar and its labels (backend/astronomy/years.py) |
| `CalendarGrid` | the 6 x 7 month grid and the yearly calendar page (backend/calendar.py) |
| `App` | the numbers computed by `select_location` (app.py) |
| `Heatmaps` | month-length classes, whole-hour zones, processing order and skipping (backend/astronomy/map/*.py) |
| `Sweeps` | the dawn sweeps behind the SVG maps (backend/astronomy/map.py, backend/astronomy/map/map.py) |
| `DayType` | the twilight classes of the day-type heatmaps and the longitude wrap |
| `Geolocation` | `parse_coordinates` (backend/geolocation.py) |
| `TimezoneApi` | the longitude-bucket time-zone handler (api/timezone.py) |
| `Etymology` | the etymology chain and its request handler (backend/etymology_api.py) |
| `NewYear` | the two new-year anchor scripts (data/new_years_day_calculator*.py) |
| `Text`, `Wrappers` | decimal rendering and reading; `Option`, `Result` |

## Model

| member | source | states |
|---|---|---|
| Sun.ParseEventType | backend/astronomy/sun.py:98-163 | the event type is accepted exactly when it is "dawn" or "dusk", and "dawn" selects the dawn branch; anything else is the ValueError |
| Sun.StepCountDrops | backend/astronomy/sun.py:121-122 | each step of the corrected walk toward the equator takes exactly one step off the number still to go |
| Sun.MigratedLatShift | backend/astronomy/sun.py:121-122 | the walk from the stepped latitude is the original walk shifted by one step |
| Sun.MigrationReachesEquator | backend/astronomy/sun.py:120-129 | the corrected walk reaches latitude 0 after exactly the ceiling of abs(lat) steps and never earlier, so the migration loop ends |
| Sun.WholeDegreeWalk | backend/astronomy/sun.py:120-123 | from a whole-degree latitude the walk visits lat-1, lat-2, ... (or lat+1, ... in the south) down to 0 |
| Sun.GetEventWithFallback | backend/astronomy/sun.py:89-163 | the method's result is the tiered resolution: astronomical, nautical, civil, sunrise/sunset, then migration toward the equator by the corrected step, which lands on 0 when less than one degree remains |
| Sun.MigrateOutcome | backend/astronomy/sun.py:119-129 | migration yields `migrated` with the 18-degree event of the first migrated latitude that has one, or `not_found` with no instant exactly when every migrated latitude failed |
| Sun.TryTiersOrder | backend/astronomy/sun.py:98-118 | a tier tag means that tier succeeded and all earlier tiers failed; a migration tag means all four tiers failed |
| Sun.TierTagsDistinct | backend/astronomy/sun.py:98-118 | the four tiers carry four different tags, none of them `migrated` or `not_found` |
| Sun.ResolvedTierOrder | backend/astronomy/sun.py:89-163 | tier order for the whole resolver, dawn never tagged `sunset`, dusk never tagged `sunrise`, and the instant missing exactly for `not_found` |
| Sun.ResolvedNotBeforeDate | backend/astronomy/sun.py:89-163 | a resolved event never falls on a local date before the requested date |
| Sun.AsWrittenWholeDegreeOffset | backend/astronomy/sun.py:121-122 | every latitude the loop as written visits differs from the start by a whole number of degrees |
| Sun.AsWrittenNeverReachesEquator | backend/astronomy/sun.py:121-122 | from a latitude that is not a whole degree, the loop as written never reaches 0 |
| Sun.AsWrittenSpinsForever | backend/astronomy/sun.py:119-129 | when every 18-degree call fails and the latitude is not a whole degree, the loop as written never returns, whatever the iteration budget |
| Sun.HalfDegreeLatitudeNeverReturns | backend/astronomy/sun.py:119-129 | concrete case: dawn at latitude 70.5 with every 18-degree call failing never returns |
| Sun.AsWrittenAgreesOnWholeDegrees | backend/astronomy/sun.py:119-129 | on whole-degree latitudes the loop as written returns the same event as the corrected walk |
| Sun.EventLineReportsOutcome | backend/astronomy/sun.py:19-39 | the dawn/dusk line reads "(not found)" exactly when no instant was found, and has no "(secondary: ...)" suffix exactly when the astronomical tier succeeded |
| Sun.SunEventLines | backend/astronomy/sun.py:16-39 | five lines, the sunrise and sunset lines showing the instants `get_sunrise` and `get_sunset` report |
| Sun.SunriseTagMatchesGetSunrise | backend/astronomy/sun.py:114-116 | a `sunrise`-tagged dawn is the instant `get_sunrise` reports for the same date |
| Tables.LatestAtOrBefore | backend/astronomy/moon.py:14 | the result is the greatest table time at or before `now`, and none exactly when every time is after `now` |
| Tables.EarliestAfter | backend/astronomy/moon.py:15 | the result is the least table time strictly after `now`, and none exactly when no time is after `now` |
| Tables.BracketAround | backend/astronomy/moon.py:8-16 | previous is at or before `now`, next is after it, and no table time lies strictly between them |
| Tables.BracketIsAdjacent | backend/astronomy/year.py:9-16 | in a strictly increasing table the previous and next anchors are neighbouring entries |
| Tables.Filter | backend/astronomy/year.py:23 | exactly the entries satisfying the condition, never more entries, order kept |
| Tables.InRange | backend/astronomy/year.py:18-24 | exactly the entries in `[start, end)`, in table order |
| Tables.FullMoonCache.Load | backend/astronomy/moon.py:10-13 | the first call loads the table and keeps it; later calls return the kept table, whatever the CSV holds by then |
| Tables.LoadTwice | backend/astronomy/year.py:19-21 | once loaded, a second load returns the first table whatever the source holds then |
| Moon.FindFirstDawnAfter | backend/astronomy/moon.py:18-31 | the loop's result is the first dawn, over the ten local dates from the date of `t`, that is strictly after `t`, or `not_found` |
| Moon.FirstDawnFromMeaning | backend/astronomy/moon.py:25-31 | from search day `i` on: `not_found` exactly when no instant; a found dawn is the resolved dawn of some day in the window, after `t`, with no earlier day in the window giving one |
| Moon.FirstDawnAfterMeaning | backend/astronomy/moon.py:18-31 | the first dawn after `t` is the dawn of the earliest local date in the ten-day window whose dawn is after `t`; `not_found` means no date in the window has one |
| Moon.NextDawnIsLater | backend/astronomy/moon.py:38-39 | the dawn asked for the day after the current dawn is on a later local date and strictly later |
| Moon.DawnsFromChain | backend/astronomy/moon.py:37-43 | each collected dawn is the next-day dawn of the one before it, lies after it and not after the end, and the loop stops when the next dawn is missing or after the end |
| Moon.MonthDawnsShape | backend/astronomy/moon.py:35-46 | the dawn list starts at the start dawn, strictly increases, stays within the end, ends exactly at the end when start <= end, and has two entries or more when start < end |
| Moon.CollectedBounded | backend/astronomy/moon.py:37-43 | the collected dawns strictly increase from the start and stay within `(start, end]` |
| Moon.CloseWithEnd | backend/astronomy/moon.py:45-46 | appending the end dawn when the last dawn is earlier keeps the list increasing and makes it end at the end dawn |
| Moon.CollectDawns | backend/astronomy/moon.py:35-46 | the method's list is the dawn list of the month, specified by the function whose shape `MonthDawnsShape` states |
| Moon.CountDawnCycles | backend/astronomy/moon.py:33-47 | the count is the number of dawn-to-dawn cycles: at least 1 when start < end and 0 when start >= end |
| Moon.LocateDay | backend/astronomy/moon.py:90-100 | the method's day is the current-day rule of the month's dawns |
| Moon.IntervalFromMeaning | backend/astronomy/moon.py:91-94 | the scan finds the first interval `[dawns[j-1], dawns[j])` holding `now`, or reports that none does |
| Moon.IntervalFound | backend/astronomy/moon.py:91-94 | in increasing dawns, a `now` between the first and last dawn always lies in some interval |
| Moon.CurrentDayMeaning | backend/astronomy/moon.py:90-100 | the current day is in 1..days: the interval holding `now`, 1 before the first dawn, the last day after the last dawn |
| Moon.PrintTodayMoonEvents | backend/astronomy/moon.py:49-104 | the method's report is the specification of today's moon events |
| Moon.TodayMoonConsistent | backend/astronomy/moon.py:49-104 | an error exactly when the table has no previous or no next full moon; otherwise the previous full moon <= now < next, the day count present exactly when both dawns are, and, when the dawn after the previous full moon precedes the dawn after the next, the current day within 1..days |
| Year.BuildMonth | backend/astronomy/year.py:52-67 | the method's month is the specification's month `j`: dawn after its full moon, dawn after the next full moon (or the next anchor for the last month), and the day count when both exist |
| Year.BuildMonths | backend/astronomy/year.py:51-67 | the loop's months are the specification's months of the year |
| Year.MonthsTile | backend/astronomy/year.py:51-67 | one month per full moon in order; each month closes where the next one starts; the last closes at the dawn after the next anchor; a day count exactly when both dawns exist |
| Year.MonthEnds | backend/astronomy/year.py:52-59 | month `j` opens at the first dawn after its full moon and closes at the first dawn after the next full moon, or after the next anchor for the last month |
| Year.MonthLengthPositive | backend/astronomy/year.py:61-62 | a month whose start dawn precedes its closing dawn has at least one day |
| Year.FindMonthContaining | backend/astronomy/year.py:71-74 | the loop's result is the first month whose dawns bracket `now` |
| Year.MonthContainingFromMeaning | backend/astronomy/year.py:71-74 | the scan from month `i` finds the first month holding `now`, or reports that none from `i` does |
| Year.MonthContainingMeaning | backend/astronomy/year.py:71-74 | the found month holds `now` and no earlier month does; none exactly when no month holds `now` |
| Year.YearCurrentMonthInRange | backend/astronomy/year.py:69-79 | the current month is in 1..number of months; it is an error exactly when no month holds `now` and the first month has no start dawn (the source raises there), or when there are no months |
| Year.PrintYearlyEvents | backend/astronomy/year.py:26-81 | the method's report is the specification of the yearly events |
| Year.YearlyEventsConsistent | backend/astronomy/year.py:26-81 | previous anchor <= now < next anchor; the months are exactly the table's full moons in `[prev, next)`; the current month is within range |
| Year.MoonsOf | backend/astronomy/year.py:47 | the full moon of each month, in order |
| Years.AnchorsInYears | backend/astronomy/years.py:16 | never more anchors than the table has, and a strictly increasing table stays strictly increasing |
| Years.AnchorsInYearsMeaning | backend/astronomy/years.py:16 | an anchor is kept exactly when its UTC year is in `start_year .. end_year + 1` |
| Years.BuildYear | backend/astronomy/years.py:19-37 | the method's year is the specification's year `i` |
| Years.YearsUpTo | backend/astronomy/years.py:18 | one year per anchor except the last |
| Years.YearsUpToMeaning | backend/astronomy/years.py:18-37 | entry `i` is the year built from anchor `i` and anchor `i + 1` |
| Years.CalendarMeaning | backend/astronomy/years.py:7-38 | one year per kept anchor except the last, each built from consecutive kept anchors |
| Years.GetMultiYearCalendarData | backend/astronomy/years.py:7-38 | the method's result is the calendar specification |
| Years.YearAtMeaning | backend/astronomy/years.py:19-37 | the year is the anchor's UTC year; its months are exactly the full moons in `[anchor, next anchor)`; each month closes where the next starts |
| Years.YearLabel | backend/astronomy/years.py:50-55 | "Past Year", "Current Year" and "Future Year" exactly when the year is before, equal to or after the current year |
| Years.HeadingShortYear | backend/astronomy/years.py:48-56 | the heading shows the year, a dash, and the last two digits of the next year, which are the next year mod 100 |
| CalendarGrid.GenerateMonthGrid | backend/calendar.py:9-38 | the grid the nested loops fill with the running day counter is the month's grid specification |
| CalendarGrid.GridLayout | backend/calendar.py:17-36 | six rows of seven cells; day 1 in the last cell of the first row; days 2 to min(days, 29) row by row in rows 1-4; day 30 in the first cell of the last row exactly for a 30-day month |
| CalendarGrid.DaysShown | backend/calendar.py:17-36 | a day appears in the grid exactly when it is 1, between 2 and min(days, 29), or 30 in a 30-day month |
| CalendarGrid.NoDayTwice | backend/calendar.py:17-36 | no day number appears in two cells |
| CalendarGrid.WholeMonthShown | backend/calendar.py:9-15 | for a 29- or 30-day month the grid shows exactly the days 1..days |
| CalendarGrid.OrdinalLabel | backend/calendar.py:74-82 | labels "1st Month", "2nd Month", "3rd Month", then "<n>th Month" |
| CalendarGrid.OrdinalLabelsDistinct | backend/calendar.py:74-82 | two months never get the same label |
| CalendarGrid.BuildMonthView | backend/calendar.py:56-83 | the method's month view is the specification's view of month `i` |
| CalendarGrid.GetCalendarForYear | backend/calendar.py:43-85 | the loop's months are the calendar specification |
| CalendarGrid.CalendarForYearMeaning | backend/calendar.py:43-88 | no months when no anchor brackets `now`; otherwise one labelled grid per full moon of the current year, sized by the dawn-cycle count, or 29 days when a dawn is missing |
| App.ComputeMonthToday | app.py:82-108 | the method's outcome is the specification of the current lunar month |
| App.MonthOfTodayMeaning | app.py:82-108 | an error when the table has no previous or no next full moon, or when a bounding dawn is missing (the source raises a TypeError there); otherwise the month opens after the previous full moon and closes after the next, its length is the dawn-cycle count, and the current day lies within it |
| App.FindMonthNumber | app.py:113-124 | the loop's month number is the month-number rule over the year's months |
| App.MonthNumberMeaning | app.py:113-124 | the first month whose dawns bracket `now`; when none does, 1 before the month's opening dawn and the number of months otherwise |
| App.ListMonthLengths | app.py:142-150 | one entry per month of the year, each the day count or missing |
| App.YearRangeShape | app.py:152-154 | the year range is the start year, a dash and two digits that read as the end year mod 100 |
| App.SelectLocation | app.py:60-164 | the handler's outcome is the selection specification |
| App.SelectMeaning | app.py:60-164 | a response exactly when no year is given and both the month and the year computations succeed; then one length entry per month of the year, the months are the table's full moons in `[prev, next)`, and a month's entry is missing exactly when one of its dawns is |
| Heatmaps.RoundHalfEven | backend/astronomy/map/generate_lunar_heatmaps.py:67 | Python's `round`: within one half of the input, and an exact half goes to the even neighbour |
| Heatmaps.ZoneHoursRange | backend/astronomy/map/generate_lunar_heatmaps.py:67 | a longitude in [-180, 180] gives a whole-hour offset in -12..12 |
| Heatmaps.SignedEtcName | backend/astronomy/map/generate_lunar_heatmaps.py:68-72 | an "Etc/GMT+n" name is the zone n hours west of UTC (for n <= 12) and "Etc/GMT-n" the zone n hours east (for n <= 14); others are unknown |
| Heatmaps.ZoneOffsetCorrect | backend/astronomy/map/month_length_heatmap.py:79-89 | the corrected zone for a whole-hour offset k in -12..12 is k hours east of UTC |
| Heatmaps.AsWrittenEastFound | backend/astronomy/map/generate_lunar_heatmaps.py:68-70 | as written, eastern offsets 1..12 give the right zone |
| Heatmaps.AsWrittenWestFallsBackToUtc | backend/astronomy/map/generate_lunar_heatmaps.py:68-72 | as written, every western offset builds a name with no sign, which is not a zone, so the lookup falls back to UTC |
| Heatmaps.WesternLongitudeGetsUtc | backend/astronomy/map/month_length_heatmap.py:84-89 | concrete case: longitude -75 rounds to -5 hours, the code as written gets offset 0, the corrected code -5 hours |
| Heatmaps.MonthClass | backend/astronomy/map/generate_lunar_heatmaps.py:92-111 | one of the five colour keys: "unknown" exactly for lengths other than 29 and 30; "29"/"30" exactly when the month starts at an astronomical dawn; "29-secondary"/"30-secondary" otherwise |
| Heatmaps.MonthClassSpelling | backend/astronomy/map/generate_lunar_heatmaps.py:107-111 | for 29 and 30 the key is the decimal length with "-secondary" appended exactly for a secondary start |
| Heatmaps.CellZonesAgreeEast | backend/astronomy/map/generate_lunar_heatmaps.py:65-72 | the cell's zone as written equals the corrected zone whenever the whole-hour offset is 0 or more; for a negative offset it is UTC instead of the offset |
| Heatmaps.DaysInCurrentMonthAsWritten | backend/astronomy/map/generate_lunar_heatmaps.py:65-114 | for cells with a whole-hour offset of 0 or more, the month classification as written (in the zone the source finds) is the modelled one |
| Heatmaps.DaysInCurrentMonthMeaning | backend/astronomy/map/generate_lunar_heatmaps.py:74-114 | for the cell in the corrected zone of its longitude: a colour key always; a day count exactly when both full moons and both dawns exist, otherwise "unknown"; the count is the dawn-cycle count, "unknown" exactly when it is not 29 or 30, and secondary exactly when the start dawn is not astronomical |
| Heatmaps.ClosestIndex | backend/astronomy/map/generate_lunar_heatmaps.py:219-229 | an index exactly when there are full moons; it is at least as close to now as every other and strictly closer than every earlier one |
| Heatmaps.ProcessingOrder | backend/astronomy/map/generate_lunar_heatmaps.py:239-255 | every index exactly once; when a closest full moon exists it comes first and the order then moves outward from it |
| Heatmaps.AppendForward | backend/astronomy/map/generate_lunar_heatmaps.py:246-248 | appending the next forward index keeps the order within range, duplicate-free and outward |
| Heatmaps.AppendBackward | backend/astronomy/map/generate_lunar_heatmaps.py:249-251 | appending the next backward index keeps the order within range, duplicate-free and outward |
| Heatmaps.Alternate | backend/astronomy/map/generate_lunar_heatmaps.py:241-253 | the alternating loop lists every index once, starting at the current one and moving outward |
| Heatmaps.Existing | backend/astronomy/map/generate_lunar_heatmaps.py:280-283 | the names already on disk, in processing order |
| Heatmaps.Fresh | backend/astronomy/map/generate_lunar_heatmaps.py:285-290 | the names not on disk whose drawing succeeds, in processing order |
| Heatmaps.GeneratedMeaning | backend/astronomy/map/generate_lunar_heatmaps.py:268-290 | a generated name is one of the names, was not on disk and drew; none is generated twice; every listed name not on disk whose drawing succeeds is generated; the two lists hold no more entries than there are names |
| Heatmaps.SkippedMeaning | backend/astronomy/map/generate_lunar_heatmaps.py:280-290 | a skipped name is one of the names and was on disk, before the pass or by an earlier drawing of the same name, so a failed drawing is never listed as skipped; every listed name already on disk is skipped |
| Heatmaps.GenerationOfDistinct | backend/astronomy/map/generate_lunar_heatmaps.py:264-290 | for distinct names, `generated` is exactly the fresh names and `skipped` exactly the names on disk, each in processing order |
| Heatmaps.GenerateAll | backend/astronomy/map/generate_lunar_heatmaps.py:264-292 | the loop's generated and skipped lists are the specified outcome of the pass |
| Sweeps.PyRange | backend/astronomy/map.py:90-91 | Python's `range`: the k-th element is start + k*step, and every element is on the near side of `stop` |
| Sweeps.ShiftByStep | backend/astronomy/map.py:90-91 | a range started one step later is the original range shifted by one element |
| Sweeps.TzFromLon | backend/astronomy/map.py:37-43 | a whole number of hours, in minutes, within 30 minutes of 4 minutes per degree of longitude |
| Sweeps.TzFromLonRounds | backend/astronomy/map.py:42 | the offset is Python's `round(lon / 15)` hours, the same rounding the heatmaps use |
| Sweeps.TzFromLonRange | backend/astronomy/map/map.py:73-79 | longitudes in [-180, 180] give offsets within plus or minus 12 hours |
| Sweeps.FirstDawnAfterUtc | backend/astronomy/map.py:200-219 | the loop's result is the instant of the first dawn after `t`, searched over `max_days` local dates of the longitude's fixed zone |
| Sweeps.FirstDawnAfterWithTag | backend/astronomy/map.py:222-244 | the loop's result is the first dawn after `t` with its tag, or `not_found` |
| Sweeps.Times | backend/astronomy/map.py:97-111 | the instant of each event, in order |
| Sweeps.EarliestAppend | backend/astronomy/map.py:110-111 | one more observer replaces the best exactly when it has a dawn strictly earlier than the best so far |
| Sweeps.EarliestMeaning | backend/astronomy/map.py:92-111 | no best exactly when no observer has a dawn; otherwise the best has the least dawn and every earlier observer a strictly later one or none |
| Sweeps.FirstEarliestUnique | backend/astronomy/map.py:110-111 | at most one observer is the first with the earliest dawn |
| Sweeps.FirstFoundFrom | backend/astronomy/map.py:310-318 | the first observer from `i` on with a dawn, or none when no later observer has one |
| Sweeps.EarliestDawnColumn | backend/astronomy/map.py:93-111 | the loop over latitudes yields the column's earliest-dawn point |
| Sweeps.DawnMapPoints | backend/astronomy/map.py:93-113 | the loop over longitudes yields the dawn map |
| Sweeps.DawnMapMeaning | backend/astronomy/map.py:93-113 | a longitude gets a point exactly when some latitude has a dawn; the point is at the first latitude with the earliest dawn |
| Sweeps.SweepDawns | backend/astronomy/map.py:289-291 | every longitude of the sweep maps to its first dawn after the previous full moon |
| Sweeps.MarkFlips | backend/astronomy/map.py:293-305 | the loop's points are the longitudes with a dawn and its flips the specified flips |
| Sweeps.LongitudeSweep | backend/astronomy/map.py:286-305 | the equator sweep's points and flips, as specified |
| Sweeps.FlipsMeaning | backend/astronomy/map.py:297-305 | a longitude is a flip exactly when both it and its eastern neighbour have a dawn and its own dawn is strictly earlier |
| Sweeps.NoFlipWithoutEarlierDawn | backend/astronomy/map.py:301-305 | when dawns never get earlier going west, there are no flips |
| Sweeps.FirstLongitudeWithDawn | backend/astronomy/map.py:311-318 | the inner loop stops at the first longitude, going west, that has a dawn |
| Sweeps.GreenSweep | backend/astronomy/map.py:307-331 | the green sweep's points, latitude by latitude, as specified |
| Sweeps.GreenPickMeaning | backend/astronomy/map.py:311-321 | no point exactly when no longitude has a dawn; otherwise the first such longitude with its dawn |
| Sweeps.EarliestDawnRow | backend/astronomy/map.py:443-449 | the loop's choice for a latitude is the specified choice |
| Sweeps.ChooseByLatitude | backend/astronomy/map.py:439-457 | exactly the swept latitudes get an entry, each the specified choice for that latitude |
| Sweeps.PickChoiceMeaning | backend/astronomy/map.py:443-449 | no choice exactly when no longitude has a dawn; otherwise the first longitude with the earliest dawn, with its tag |
| Sweeps.FlipTest | backend/astronomy/map.py:247-331 | the flip test's three point lists are the equator sweep over 0..-45 and the green sweep over latitudes 0..85 then -1..-85 |
| Sweeps.TruePoints | backend/astronomy/map.py:431-457 | the chosen entries are for exactly the swept latitudes, over longitudes 0 down to `max_west` |
| Sweeps.DawnMapOf | backend/astronomy/map.py:64-113 | the dawn map over the longitudes -180..179 and latitudes -90..90 at the given steps |
| DayType.ClassName | backend/astronomy/daytype_heatmap.py:24-30 | every class name is a key of the colour map |
| DayType.Classify | backend/astronomy/daytype_heatmap.py:106-116 | day exactly when the altitude is above 0; civil exactly for [-6, 0]; nautical for [-12, -6); astronomical for [-18, -12); night below -18 |
| DayType.ClassifyMonotone | backend/astronomy/map/map.py:249-258 | a higher sun never gives a darker class |
| DayType.OffImageMeansNoPixel | backend/astronomy/daytype_heatmap.py:119-125 | a cell passes the bounds check exactly when its square covers at least one pixel of the image |
| DayType.DrawCells | backend/astronomy/daytype_heatmap.py:104-126 | the loop draws the specified rectangles, in cell order |
| DayType.DrawnRectsMeaning | backend/astronomy/daytype_heatmap.py:117-126 | a rectangle is drawn exactly when it is the square around a cell that passes the bounds check, filled with the colour of the cell's class |
| DayType.TrackRadii | backend/astronomy/map/map.py:237-289 | the nearest night pixel is missing exactly when no on-image night cell exists, and otherwise is the first on-image night cell of least radius; the astronomical radius is at least 0, bounds every on-image astronomical cell, and is 0 or attained by one |
| DayType.PyMod | backend/astronomy/map/map.py:188 | Python's float `%` by a positive modulus lies in [0, m) |
| DayType.WrapLongitude | backend/astronomy/map/map.py:188 | the wrapped longitude lies in [-180, 180) and differs from the input by whole turns |
| DayType.WrapUnique | backend/astronomy/map/map.py:188 | it is the only value in [-180, 180) that differs from the input by whole turns |
| DayType.WrapFixesRange | backend/astronomy/map/map.py:188 | longitudes already in [-180, 180) are unchanged |
| DayType.WrapIdempotent | backend/astronomy/map/map.py:188 | wrapping twice is wrapping once |
| Geolocation.StripLeft | backend/geolocation.py:22 | the input with its leading whitespace removed: a suffix of it, starting with a non-space, everything dropped being whitespace |
| Geolocation.StripRight | backend/geolocation.py:22 | the input with its trailing whitespace removed: a prefix of it, ending with a non-space, everything dropped being whitespace |
| Geolocation.Strip | backend/geolocation.py:22 | `str.strip()`: the result neither starts nor ends with whitespace |
| Geolocation.NonSpaceStripLeft | backend/geolocation.py:22 | stripping keeps every non-space character, in order |
| Geolocation.CollapseSpaces | backend/geolocation.py:22 | `re.sub(r'\s+', ' ', ...)`: the non-space characters are kept in order, a leading run of whitespace stays (as one space), and every remaining whitespace character is a single space not followed by another |
| Geolocation.SplitBy | backend/geolocation.py:25 | `re.split` on one-character separators: one more piece than there are separators |
| Geolocation.SplitByMeaning | backend/geolocation.py:25 | no piece of the split holds a separator, and the pieces joined give the input without its separators |
| Geolocation.NonEmpty | backend/geolocation.py:26 | the pieces that are not empty, each one of the input pieces, with the same characters overall |
| Geolocation.Words | backend/geolocation.py:30 | `str.split()`: non-empty pieces free of whitespace which, joined, give the input's non-space characters |
| Geolocation.WordParts | backend/geolocation.py:28-40 | the regrouped space-separated words (two pairs, the words themselves when at most two, or none) are all non-empty and trimmed |
| Geolocation.Pair | backend/geolocation.py:35 | joining two words with one space gives a trimmed part |
| Geolocation.StrippedNonEmpty | backend/geolocation.py:26 | `[p.strip() for p in parts if p.strip()]`: no more parts than pieces, each non-empty and trimmed |
| Geolocation.Parts | backend/geolocation.py:20-44 | every coordinate part is non-empty and has no surrounding whitespace |
| Geolocation.PartsOf | backend/geolocation.py:24-44 | after normalisation: separator parts when there are two or more, else space-separated words regrouped as in the source; every part non-empty and trimmed |
| Geolocation.FirstStandalone | backend/geolocation.py:55 | `re.search(r'\b([nsew])\b', ..., re.IGNORECASE)`: the first position holding a direction letter with no word character on either side, or none |
| Geolocation.RemoveStandalone | backend/geolocation.py:58 | `re.sub` of every standalone direction letter: unchanged when there is none, strictly shorter otherwise |
| Geolocation.FromDecimal | backend/geolocation.py:61-79 | a decimal value is accepted only in range; the sign follows S (latitude only) and W (longitude only) as negative and N/E as positive, magnitude kept; a wrong-axis S or W is refused; an in-range N/E value is always accepted |
| Geolocation.DigitPrefix | backend/geolocation.py:82 | `\d+`'s longest run of leading digits |
| Geolocation.DigitPrefixOf | backend/geolocation.py:82 | digits followed by a non-digit read back as exactly those digits |
| Geolocation.MatchSeconds | backend/geolocation.py:82 | the seconds group and optional quote: digits, optional fraction, and the text they render to is the input |
| Geolocation.MatchSecondsText | backend/geolocation.py:82 | rendering seconds then matching them gives back the same seconds, fraction and quote |
| Geolocation.MatchDms | backend/geolocation.py:82-83 | a match is a well-formed degrees/minutes/seconds triple whose rendering is exactly the matched text |
| Geolocation.MatchRenderDms | backend/geolocation.py:82-83 | every well-formed triple is matched back to itself |
| Geolocation.DmsMagnitude | backend/geolocation.py:91 | degrees + minutes/60 + seconds/3600 is never negative |
| Geolocation.FromDms | backend/geolocation.py:84-109 | "Invalid DMS values" exactly when minutes or seconds reach 60; an accepted value is in range with the DMS magnitude, signed by the direction as for decimals |
| Geolocation.ParseSingle | backend/geolocation.py:50-111 | an accepted coordinate is in range for its axis, and S/W only on their own axis and non-positive, N/E non-negative |
| Geolocation.DmsReading | backend/geolocation.py:82-111 | text that is not a float but renders a DMS triple is refused when minutes or seconds reach 60, and otherwise read with the DMS magnitude |
| Geolocation.ParseCoordinates | backend/geolocation.py:8-120 | empty input gives none; a result is an in-range latitude/longitude pair; a result exists exactly when there are at least two parts and both first parts parse |
| Geolocation.UngroupableWordsRefused | backend/geolocation.py:28-44 | without separators, a word count other than two that is not number-letter-number-letter gives no result |
| Geolocation.CardinalWordsRegrouped | backend/geolocation.py:33-35 | without separators, four words whose second and fourth are direction letters become two parts "a N" and "b W" |
| TimezoneApi.Bucket | api/timezone.py:25-42 | bucket i holds exactly the finite longitudes from threshold i-1 (inclusive) to threshold i (exclusive); minus infinity goes to the first bucket, plus infinity and NaN to the last |
| TimezoneApi.BucketMonotone | api/timezone.py:25-42 | a greater longitude never gets an earlier (more western) zone |
| TimezoneApi.BucketUnique | api/timezone.py:25-42 | a longitude inside the bounds of bucket i gets bucket i and no other |
| TimezoneApi.Handler | api/timezone.py:8-58 | 400 exactly when `lat` or `lon` is missing or empty; 500 exactly when both are present and `lon` is not a float; 200 otherwise, allowing any origin and carrying the zone of the longitude |
| TimezoneApi.LatitudeIgnored | api/timezone.py:12-25 | any two non-empty latitudes give the same response |
| Etymology.FirstUsableMeaning | backend/etymology_api.py:61-69 | a next number exists exactly when some reference has a truthy `src` that `int()` accepts, and then it is the number of the first such reference |
| Etymology.FindNextNumber | backend/etymology_api.py:61-72 | the loop over the references with its early `break` finds the specified next number |
| Etymology.ChainFrom | backend/etymology_api.py:11-77 | never more entries than the depth allows, and an empty chain exactly when the start number is 0, the depth is not positive, or the first fetch fails |
| Etymology.BuildEtymologyChain | backend/etymology_api.py:11-77 | the while loop with its breaks builds the specified chain |
| Etymology.NumbersFrom | backend/etymology_api.py:17-75 | one Strong's number per chain entry, starting at the start number |
| Etymology.ChainLinkAt | backend/etymology_api.py:20-75 | entry i is the record of its non-zero number; an entry that is followed by another is not primitive and names the next number as its first usable reference |
| Etymology.ChainLinks | backend/etymology_api.py:20-75 | the whole chain is linked: numbers, records and references agree at every position, from the start number on |
| Etymology.ChainStops | backend/etymology_api.py:20-75 | the chain ends at a primitive root, at an entry with no usable (or a zero) reference, at a failed fetch, or when the depth is used up |
| Etymology.WithoutH | backend/etymology_api.py:86-87 | one leading "H" is removed, anything else is left unchanged |
| Etymology.EffectiveDepth | backend/etymology_api.py:95-101 | always in 1..20: 10 when absent, the given value when it is an integer in 1..20, and 10 for anything else |
| Etymology.Handler | backend/etymology_api.py:79-118 | "missing" for an absent or empty parameter; "invalid" exactly when the number does not parse; a found chain is the chain from the start number at the effective depth, with its length and whether its last entry is primitive; 404 exactly when that chain is empty |
| Etymology.LeadingHIgnored | backend/etymology_api.py:86-87 | "H123" and "123" give the same answer |
| Etymology.UnknownStartNotFound | backend/etymology_api.py:104-108 | a start number of 0 or one the data source does not know gives 404 |
| NewYear.TimesOf | data/new_years_day_calculator.py:22-23 | exactly the times of the rows labelled with the year |
| NewYear.UniqueYears | data/new_years_day_calculator.py:16 | no year appears twice |
| NewYear.UniqueYearsMeaning | data/new_years_day_calculator.py:10-16 | exactly the UTC years of the full moons are processed |
| NewYear.SortTimesSorted | data/new_years_day_calculator.py:21 | `sort_values()`: the year's full moons in non-decreasing order, the same times as before |
| NewYear.FullMoonsOfMeaning | data/new_years_day_calculator.py:21 | a year's list is sorted and holds exactly the full moons whose UTC year is that year |
| NewYear.IndexOf | data/new_years_day_calculator.py:48 | `list.index`: the first position holding the value |
| NewYear.PreviousIsLatestEarlier | data/new_years_day_calculator.py:48-50 | in the sorted list, the entry before the selection exists exactly when an earlier full moon does, and it is the latest full moon strictly before the selection |
| NewYear.Max | data/new_years_day_calculator.py:35 | `max`: an element of the list not below any other |
| NewYear.Closest | data/new_years_day_calculator_2.py:41 | `min` with a key: an element of the list at least as close to the full moon as every other |
| NewYear.GapBeforeMeaning | data/new_years_day_calculator.py:32-36 | a full moon is a candidate exactly when some crossing of its year lies strictly before it; its gap is positive and reaches back to the latest such crossing |
| NewYear.RelevantMeaning | data/new_years_day_calculator_2.py:30-37 | a crossing is weighed exactly when it is at most 12 hours after the full moon; earlier ones are all weighed and later ones ignored |
| NewYear.GapAroundMeaning | data/new_years_day_calculator_2.py:39-42 | a gap exists exactly when some crossing is at most 12 hours after the full moon, and it is the least distance to such a crossing |
| NewYear.SelectionMeaning | data/new_years_day_calculator.py:26-40 | nothing is selected exactly when no full moon has a gap; otherwise the selection has the least gap, every earlier full moon a strictly larger one, and, the list being sorted, it is the earliest full moon of least gap |
| NewYear.SelectByGap | data/new_years_day_calculator.py:25-40 | the loop's `selected_fm` after scanning the year is the specified selection |
| NewYear.AnchorWithHamalMeaning | data/new_years_day_calculator.py:42-60 | an anchor is always before the year's Sun-Hamal crossing; a selection before it is kept; a selection at or after it gives way to the latest earlier full moon, and the year has an anchor exactly when that one exists and is before the crossing; with no crossing the selection is kept; no selection, no anchor |
| NewYear.HamalCutoffMeaning | data/new_years_day_calculator.py:44-60 | for any selection from the sorted list and any crossing: a kept anchor precedes the crossing; no selection gives none; a selection before the crossing (or with no crossing) is kept; one at or after it is replaced by the latest earlier full moon, kept exactly when that exists and precedes the crossing |
| NewYear.OnlyFirstHamalCounts | data/new_years_day_calculator.py:45 | Sun-Hamal rows after the first of the year make no difference |
| NewYear.SelectAnchorWithHamal | data/new_years_day_calculator.py:25-60 | the per-year body gives the specified anchor |
| NewYear.NewYearsDays | data/new_years_day_calculator.py:12-60 | the list written to the output holds, in year order, the anchor of every year that has one |
| NewYear.AnchorAroundExists | data/new_years_day_calculator_2.py:28-51 | a year yields an anchor exactly when one of its full moons has a crossing of the year at most 12 hours after it (or any time before it) |
| NewYear.SelectAnchorAround | data/new_years_day_calculator_2.py:23-51 | the per-year body gives the specified anchor |
| NewYear.NewYearsDaysAround | data/new_years_day_calculator_2.py:12-51 | the list written to the output holds, in year order, the anchor of every year that has one |
| NewYear.DistinctAnchorYears | data/new_years_day_calculator.py:19-60 | with distinct years and each outcome in its own year, no two emitted anchors share a year |
| NewYear.AtMostOneAnchorPerYearWithHamal | data/new_years_day_calculator.py:19-60 | at most one anchor per processed year, each a full moon of the table, no two in the same year |
| NewYear.AtMostOneAnchorPerYearAround | data/new_years_day_calculator_2.py:18-51 | at most one anchor per processed year, each a full moon of the table, no two in the same year |

## Left out

- Ephemeris and twilight computation. This covers astral's `dawn`, `dusk`, `sunrise` and `sunset`, skyfield's illumination, and the sub-solar and sub-lunar points. All of it is the oracle `Sky`. Its one assumed property, `WellDated`, is a requirement of the members that loop until a dawn comes. The model does not prove that the real library satisfies it.
- Time-zone databases and DST. This covers pytz, `astimezone` and `TimezoneFinder` in `get_timezone`. A location carries a fixed UTC offset in seconds. The `Etc/GMT` names of the heatmaps are the only zones looked up, as fixed offsets.
- Floating point. Latitudes, longitudes and altitudes are `real`, so rounding error, NaN and infinities are not modelled. The exception is the `lon` of the time-zone handler, which is a Python float with infinities and NaN. `Sweeps.TzFromLon` takes only the whole-degree longitudes the sweeps produce.
- Geometry and drawing: azimuthal projection, angular distances, path smoothing, boundary trigonometry, PIL images and SVG text. In `DayType` the Sun's altitude, the pixel position and the pixel radius of each cell are inputs. The classification and the skip rule are modelled; the drawing is not.
- Sun altitude per cell (`sun_altitude`) is an input for the same reason.
- Printed output. The `print_*` functions are modelled as the values they print and decide on (tags, day counts, labels, headings). The text layout is modelled only for the sun-event lines, the year headings and the month labels. Logging and the per-latitude debug counts are left out.
- CSV and pandas. Tables arrive as sequences of instants. The year of a full moon is its UTC calendar year (`Instants.YearOf`). The crossing and Sun-Hamal tables carry their own year column as data. Writing the output CSV is the returned sequence.
- HTTP and serverless plumbing: the Flask routes, the handler wiring, CORS headers other than the any-origin flag, and the Strong's data service. A Strong's lookup is the map `db`; a failed or empty lookup is a number missing from it.
- Etymology.Handler: the 500 answer for an unexpected exception is left out. Every path of the model is total, so nothing can raise there.
- Etymology.BuildEtymologyChain: each chain entry is the fetched record. Copying its fields into the output dictionary with defaults is not modelled. Neither is a `src` value that is not a string: `int()` is applied through `intOf` only to strings.
- Geolocation: `\s`, `strip()` and `split()` are modelled on ASCII only: space, `\t` to `\r`, and `\x1c` to `\x1f`. Non-ASCII whitespace such as `\x85`, `\xa0` and `\u2000` is not modelled. `\w` and `\d` are their ASCII members, so Unicode letters and digits are not modelled.
- Heatmaps.DaysInCurrentMonth: every cell is classified in the corrected zone of its longitude (`ZoneOffset`). As written, a cell west of 7.5 degrees W falls back to UTC (see Findings). `Heatmaps.DaysInCurrentMonthAsWritten` proves that the as-written classification is the same for every cell whose zone hour is 0 or more; for the western cells the model does not reproduce the UTC day counts.
- Sweeps: an exception inside a probe is a failed probe, so it gives `not_found` or no dawn. That matches the source's `except Exception`.
- `generate_debug_animation` and the other driver and test scripts are not part of this model: `generate_monthly_heatmaps.py`, `generate_aug9_heatmap.py` and the `test_*` files.
- Database and data-loading scripts are not part of this model: `update_mongodb_strongs.py`, `debug_contact_data.py`, `backend/data.py` and `overlay_chosen.py`.
- Memoisation other than the full-moon table cache (`Tables.FullMoonCache`) is not modelled.
- NewYear.SortTimes: `sort_values()` is modelled as an insertion sort. Sorting is stable in both, but equal instants are indistinguishable, so stability has no effect.
- Sun.GetEventWithFallback: the migration is the corrected walk (`StepTowardEquator`). Below one degree it lands on 0 and stops with `not_found`. As written, the walk steps by exactly one degree, so from a latitude that is not a whole degree it crosses the equator. Once the last fractional step fails, the source's answer is therefore not reproduced: that is the dawn at the mirrored latitude tagged `migrated`, or no return at all. For example, from latitude 1.5 the source tries 0.5 and then -0.5, while the model tries 0.5 and then 0. `Sun.AsWrittenAgreesOnWholeDegrees` proves the two agree on whole-degree latitudes.
- Sun.AsWrittenSpinsForever: the never-ending loop is stated with an iteration budget of any size. Divergence itself cannot be written as a Dafny function.

## Findings

| source | as written | input that shows it | evidently intended | confidence | as-written member | corrected member |
|---|---|---|---|---|---|---|
| backend/astronomy/sun.py:121-122 | the migration loop steps the latitude by exactly 1 degree toward 0 and only stops when it equals 0 | dawn at latitude 70.5 where every 18-degree call fails: the latitude goes 69.5, ..., 0.5, -0.5, 0.5, ... forever | walk toward the equator and stop there, returning `not_found` | high (not executed) | Sun.AsWrittenSpinsForever | Sun.MigrationReachesEquator |
| backend/astronomy/map/generate_lunar_heatmaps.py:68 | `f'Etc/GMT{-k}'` prints no sign when `-k` is positive, so a western offset builds `Etc/GMT5`, which is not a zone; the bare `except` then falls back to UTC | longitude -75 (k = -5) gets UTC instead of UTC-5 | `Etc/GMT+5`, the zone five hours west of UTC | high (not executed) | Heatmaps.AsWrittenWestFallsBackToUtc | Heatmaps.ZoneOffsetCorrect |
