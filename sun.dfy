/**
 * The twilight event resolver (backend/astronomy/sun.py).
 *
 * The astronomy library is an oracle `Sky`: given the event kind, the observer,
 * the local civil date and the solar depression, it yields the event instant or
 * nothing (the library raised because the sun never reaches that depression on
 * that date). The resolver tries 18, 12 and 6 degrees and then the horizon
 * (sunrise or sunset), and finally walks the latitude toward the equator one
 * degree at a time, retrying 18 degrees only.
 */
module Sun {
  import opened Wrappers
  import opened Instants

  datatype Kind = Dawn | Dusk

  /** Solar depressions the library is asked for; `Horizon` is sunrise or sunset. */
  datatype Depression = Deg18 | Deg12 | Deg6 | Horizon

  /** Which tier produced an event. */
  datatype Tag = Astronomical | Nautical | Civil | Sunrise | Sunset | Migrated | NotFound

  /** An observer: latitude and longitude in degrees, zone offset in seconds east of UTC. */
  datatype Location = Location(lat: real, lon: real, offset: int)

  /** The astronomy library: the event instant, or None when it raises. */
  type Sky = (Kind, Location, Day, Depression) -> Option<Instant>

  /**
   * The library's events for a date never fall on an earlier local date of the
   * observer's zone.
   */
  ghost predicate WellDated(sky: Sky) {
    forall k, loc, d, p :: DatedOnOrAfter(sky, k, loc, d, p)
  }

  /** The event for date `d`, if any, is not on an earlier local date. */
  ghost predicate DatedOnOrAfter(sky: Sky, k: Kind, loc: Location, d: Day, p: Depression) {
    sky(k, loc, d, p).Some? ==> LocalDate(sky(k, loc, d, p).value, loc.offset) >= d
  }

  /** A resolved event and the tier tag that produced it. */
  datatype Event = Event(time: Option<Instant>, tag: Tag)

  function TagName(t: Tag): string {
    match t
    case Astronomical => "astronomical"
    case Nautical => "nautical"
    case Civil => "civil"
    case Sunrise => "sunrise"
    case Sunset => "sunset"
    case Migrated => "migrated"
    case NotFound => "not_found"
  }

  /** The event-type argument: only "dawn" and "dusk" are accepted; anything else raises ValueError. */
  function ParseEventType(s: string): (r: Result<Kind, string>)
    ensures r.Ok? <==> s == "dawn" || s == "dusk"
    ensures r.Ok? ==> (r.value == Dawn <==> s == "dawn")
  {
    if s == "dawn" then Ok(Dawn)
    else if s == "dusk" then Ok(Dusk)
    else Err("ValueError")
  }

  /** The four tiers, in the order they are tried. */
  const Tiers: seq<Depression> := [Deg18, Deg12, Deg6, Horizon]

  /** The tag a success at tier `dep` carries. */
  function TierTag(kind: Kind, dep: Depression): Tag {
    match dep
    case Deg18 => Astronomical
    case Deg12 => Nautical
    case Deg6 => Civil
    case Horizon => if kind == Dawn then Sunrise else Sunset
  }

  // ---------------------------------------------------------------------------
  // Latitude migration

  function Abs(x: real): real {
    if x < 0.0 then -x else x
  }

  /** Number of one-degree steps the walk toward the equator takes: the ceiling of |m|. */
  function StepsToEquator(m: real): nat {
    var c := -((-Abs(m)).Floor);
    if c < 0 then 0 else c
  }

  /**
   * One migration step: one degree toward the equator, landing on the equator
   * when less than a degree remains.
   */
  function StepTowardEquator(m: real): real {
    if m >= 1.0 then m - 1.0
    else if m <= -1.0 then m + 1.0
    else 0.0
  }

  lemma StepCountDrops(m: real)
    requires m != 0.0
    ensures StepsToEquator(StepTowardEquator(m)) == StepsToEquator(m) - 1
  {
  }

  /** The latitude tried at migration step `j` (step 0 is the requested latitude). */
  function MigratedLat(lat: real, j: nat): real {
    if j == 0 then lat else StepTowardEquator(MigratedLat(lat, j - 1))
  }

  /** Starting one step later shifts the walk by one step. */
  lemma {:induction false} MigratedLatShift(lat: real, j: nat)
    ensures MigratedLat(StepTowardEquator(lat), j) == MigratedLat(lat, j + 1)
  {
    if j > 0 {
      MigratedLatShift(lat, j - 1);
    }
  }

  /** The walk reaches the equator after exactly `StepsToEquator(lat)` steps and not before. */
  lemma {:induction false} MigrationReachesEquator(lat: real)
    ensures MigratedLat(lat, StepsToEquator(lat)) == 0.0
    ensures forall j :: 0 <= j < StepsToEquator(lat) ==> MigratedLat(lat, j) != 0.0
    decreases StepsToEquator(lat)
  {
    if lat != 0.0 {
      var n := StepsToEquator(lat);
      StepCountDrops(lat);
      MigrationReachesEquator(StepTowardEquator(lat));
      MigratedLatShift(lat, n - 1);
      forall j | 1 <= j < n
        ensures MigratedLat(lat, j) != 0.0
      {
        MigratedLatShift(lat, j - 1);
      }
    }
  }

  /** For a whole-degree latitude the walk visits lat -/+ 1, lat -/+ 2, ..., 0. */
  lemma {:induction false} WholeDegreeWalk(lat: int, j: nat)
    requires j <= (if lat < 0 then -lat else lat)
    ensures StepsToEquator(lat as real) == (if lat < 0 then -lat else lat)
    ensures MigratedLat(lat as real, j) == (if lat >= 0 then lat - j else lat + j) as real
  {
    if j > 0 {
      WholeDegreeWalk(lat, j - 1);
    }
  }

  function AtLat(loc: Location, lat: real): Location {
    loc.(lat := lat)
  }

  /** The migration phase: retry 18 degrees at each migrated latitude until one succeeds or the equator is reached. */
  function Migrate(sky: Sky, kind: Kind, loc: Location, d: Day): Event
    decreases StepsToEquator(loc.lat)
  {
    if loc.lat == 0.0 then Event(None, NotFound)
    else
      StepCountDrops(loc.lat);
      var next := AtLat(loc, StepTowardEquator(loc.lat));
      var t := sky(kind, next, d, Deg18);
      if t.Some? then Event(t, Migrated) else Migrate(sky, kind, next, d)
  }

  /** Tiers `i`, ..., 3 in order, then migration. */
  function TryTiers(sky: Sky, kind: Kind, loc: Location, d: Day, i: nat): Event
    requires i <= |Tiers|
    decreases |Tiers| - i
  {
    if i == |Tiers| then Migrate(sky, kind, loc, d)
    else
      var t := sky(kind, loc, d, Tiers[i]);
      if t.Some? then Event(t, TierTag(kind, Tiers[i])) else TryTiers(sky, kind, loc, d, i + 1)
  }

  /** The resolver: the first tier that succeeds, then migration. */
  function Resolved(sky: Sky, kind: Kind, loc: Location, d: Day): Event {
    TryTiers(sky, kind, loc, d, 0)
  }

  /** `get_event_with_fallback`: four straight-line tiers, then the migration loop. */
  method GetEventWithFallback(sky: Sky, kind: Kind, loc: Location, d: Day) returns (e: Event)
    ensures e == Resolved(sky, kind, loc, d)
  {
    var t := sky(kind, loc, d, Deg18);
    if t.Some? {
      return Event(t, Astronomical);
    }
    assert Resolved(sky, kind, loc, d) == TryTiers(sky, kind, loc, d, 1);
    t := sky(kind, loc, d, Deg12);
    if t.Some? {
      return Event(t, Nautical);
    }
    assert Resolved(sky, kind, loc, d) == TryTiers(sky, kind, loc, d, 2);
    t := sky(kind, loc, d, Deg6);
    if t.Some? {
      return Event(t, Civil);
    }
    assert Resolved(sky, kind, loc, d) == TryTiers(sky, kind, loc, d, 3);
    t := sky(kind, loc, d, Horizon);
    if t.Some? {
      return Event(t, TierTag(kind, Horizon));
    }
    assert Resolved(sky, kind, loc, d) == Migrate(sky, kind, loc, d);
    var m := loc;
    while m.lat != 0.0
      invariant Migrate(sky, kind, m, d) == Migrate(sky, kind, loc, d)
      decreases StepsToEquator(m.lat)
    {
      StepCountDrops(m.lat);
      m := AtLat(m, StepTowardEquator(m.lat));
      t := sky(kind, m, d, Deg18);
      if t.Some? {
        return Event(t, Migrated);
      }
    }
    return Event(None, NotFound);
  }

  /** The 18-degree call at migration step `i` failed. */
  predicate FailsAtStep(sky: Sky, kind: Kind, loc: Location, d: Day, i: nat) {
    sky(kind, AtLat(loc, MigratedLat(loc.lat, i)), d, Deg18).None?
  }

  /** Step `j` is the first migration step whose 18-degree call succeeds, and `e` is that result. */
  predicate FirstSuccessAt(sky: Sky, kind: Kind, loc: Location, d: Day, e: Event, j: nat) {
    && 1 <= j <= StepsToEquator(loc.lat)
    && e.time == sky(kind, AtLat(loc, MigratedLat(loc.lat, j)), d, Deg18)
    && (forall i :: 1 <= i < j ==> FailsAtStep(sky, kind, loc, d, i))
  }

  /**
   * What the migration phase returns: a migrated event is the 18-degree event at
   * the first migrated latitude where one exists; `not_found` means every migrated
   * latitude down to the equator failed; the instant is missing exactly when the
   * tag is `not_found`.
   */
  lemma {:induction false} MigrateOutcome(sky: Sky, kind: Kind, loc: Location, d: Day)
    ensures Migrate(sky, kind, loc, d).tag == Migrated || Migrate(sky, kind, loc, d).tag == NotFound
    ensures Migrate(sky, kind, loc, d).time.None? <==> Migrate(sky, kind, loc, d).tag == NotFound
    ensures Migrate(sky, kind, loc, d).tag == Migrated ==>
      exists j: nat :: FirstSuccessAt(sky, kind, loc, d, Migrate(sky, kind, loc, d), j)
    ensures Migrate(sky, kind, loc, d).tag == NotFound ==>
      forall i :: 1 <= i <= StepsToEquator(loc.lat) ==> FailsAtStep(sky, kind, loc, d, i)
    decreases StepsToEquator(loc.lat)
  {
    if loc.lat != 0.0 {
      StepCountDrops(loc.lat);
      var next := AtLat(loc, StepTowardEquator(loc.lat));
      var n := StepsToEquator(loc.lat);
      assert MigratedLat(loc.lat, 1) == next.lat;
      if sky(kind, next, d, Deg18).None? {
        MigrateOutcome(sky, kind, next, d);
        var e := Migrate(sky, kind, next, d);
        assert Migrate(sky, kind, loc, d) == e;
        forall i | 1 <= i <= n - 1
          ensures FailsAtStep(sky, kind, next, d, i) <==> FailsAtStep(sky, kind, loc, d, i + 1)
          ensures AtLat(next, MigratedLat(next.lat, i)) == AtLat(loc, MigratedLat(loc.lat, i + 1))
        {
          MigratedLatShift(loc.lat, i);
        }
        assert FailsAtStep(sky, kind, loc, d, 1);
        if e.tag == Migrated {
          var j: nat :| FirstSuccessAt(sky, kind, next, d, e, j);
          forall i | 1 <= i < j + 1
            ensures FailsAtStep(sky, kind, loc, d, i)
          {
            if i > 1 {
              assert FailsAtStep(sky, kind, next, d, i - 1);
            }
          }
          assert FirstSuccessAt(sky, kind, loc, d, e, j + 1);
        } else {
          forall i | 1 <= i <= n
            ensures FailsAtStep(sky, kind, loc, d, i)
          {
            if i > 1 {
              assert FailsAtStep(sky, kind, next, d, i - 1);
            }
          }
        }
      } else {
        assert FirstSuccessAt(sky, kind, loc, d, Migrate(sky, kind, loc, d), 1);
      }
    }
  }

  /** The tiers from `i` on: either a tier succeeded after all earlier ones from `i` failed, or migration decided. */
  lemma {:induction false} TryTiersOrder(sky: Sky, kind: Kind, loc: Location, d: Day, i: nat)
    requires i <= |Tiers|
    ensures var e := TryTiers(sky, kind, loc, d, i);
      && ((e.tag == Migrated || e.tag == NotFound) ==>
            e == Migrate(sky, kind, loc, d) && forall j :: i <= j < |Tiers| ==> sky(kind, loc, d, Tiers[j]).None?)
      && (e.tag != Migrated && e.tag != NotFound ==>
            exists k :: i <= k < |Tiers| && e.tag == TierTag(kind, Tiers[k])
              && e.time == sky(kind, loc, d, Tiers[k]) && e.time.Some?
              && forall j :: i <= j < k ==> sky(kind, loc, d, Tiers[j]).None?)
    decreases |Tiers| - i
  {
    if i == |Tiers| {
      MigrateOutcome(sky, kind, loc, d);
    } else if sky(kind, loc, d, Tiers[i]).None? {
      TryTiersOrder(sky, kind, loc, d, i + 1);
    } else {
      assert TryTiers(sky, kind, loc, d, i).tag == TierTag(kind, Tiers[i]);
    }
  }

  /** Each tier has its own tag, and none is a migration tag. */
  lemma TierTagsDistinct(kind: Kind)
    ensures forall a, b :: 0 <= a < b < |Tiers| ==> TierTag(kind, Tiers[a]) != TierTag(kind, Tiers[b])
    ensures forall a :: 0 <= a < |Tiers| ==> TierTag(kind, Tiers[a]) != Migrated && TierTag(kind, Tiers[a]) != NotFound
  {
  }

  /**
   * Tier order: a tier tag means that tier succeeded and every earlier tier
   * failed; `migrated` and `not_found` mean all four tiers failed and the
   * migration phase decided; dawn never reports `sunset` and dusk never
   * reports `sunrise`; the instant is missing exactly when the tag is `not_found`.
   */
  lemma ResolvedTierOrder(sky: Sky, kind: Kind, loc: Location, d: Day)
    ensures var e := Resolved(sky, kind, loc, d);
      && (forall i :: 0 <= i < 4 && e.tag == TierTag(kind, Tiers[i]) ==>
            e.time == sky(kind, loc, d, Tiers[i]) && e.time.Some?
            && forall j :: 0 <= j < i ==> sky(kind, loc, d, Tiers[j]).None?)
      && ((e.tag == Migrated || e.tag == NotFound) ==>
            e == Migrate(sky, kind, loc, d) && forall j :: 0 <= j < 4 ==> sky(kind, loc, d, Tiers[j]).None?)
      && (kind == Dawn ==> e.tag != Sunset)
      && (kind == Dusk ==> e.tag != Sunrise)
      && (e.time.None? <==> e.tag == NotFound)
  {
    TryTiersOrder(sky, kind, loc, d, 0);
    TierTagsDistinct(kind);
    MigrateOutcome(sky, kind, loc, d);
  }

  /** Whatever tier or migrated latitude produced it, a resolved event is not dated before its date. */
  lemma ResolvedNotBeforeDate(sky: Sky, kind: Kind, loc: Location, d: Day)
    requires WellDated(sky)
    ensures Resolved(sky, kind, loc, d).time.Some? ==>
      LocalDate(Resolved(sky, kind, loc, d).time.value, loc.offset) >= d
  {
    ResolvedTierOrder(sky, kind, loc, d);
    MigrateOutcome(sky, kind, loc, d);
    var r := Resolved(sky, kind, loc, d);
    if r.tag != Migrated && r.tag != NotFound {
      TryTiersOrder(sky, kind, loc, d, 0);
      var k :| 0 <= k < |Tiers| && r.tag == TierTag(kind, Tiers[k]) && r.time == sky(kind, loc, d, Tiers[k]);
      assert DatedOnOrAfter(sky, kind, loc, d, Tiers[k]);
    }
    var e := Migrate(sky, kind, loc, d);
    if r.tag == Migrated {
      var j: nat :| FirstSuccessAt(sky, kind, loc, d, e, j);
      var at := AtLat(loc, MigratedLat(loc.lat, j));
      assert DatedOnOrAfter(sky, kind, at, d, Deg18);
      assert at.offset == loc.offset;
    }
  }

  // ---------------------------------------------------------------------------
  // The migration loop as written: it steps by exactly one degree and stops
  // only at exactly zero.

  function StepAsWritten(m: real): real {
    if m > 0.0 then m - 1.0 else m + 1.0
  }

  function MigratedLatAsWritten(lat: real, j: nat): real {
    if j == 0 then lat else StepAsWritten(MigratedLatAsWritten(lat, j - 1))
  }

  /**
   * The loop as written, run for at most `fuel` iterations: None means it was
   * still looping when the fuel ran out.
   */
  function MigrateAsWritten(sky: Sky, kind: Kind, loc: Location, d: Day, fuel: nat): Option<Event>
    decreases fuel
  {
    if loc.lat == 0.0 then Some(Event(None, NotFound))
    else if fuel == 0 then None
    else
      var next := AtLat(loc, StepAsWritten(loc.lat));
      var t := sky(kind, next, d, Deg18);
      if t.Some? then Some(Event(t, Migrated)) else MigrateAsWritten(sky, kind, next, d, fuel - 1)
  }

  /** The whole number of degrees the loop as written has moved after `j` iterations. */
  function AsWrittenShift(lat: real, j: nat): int {
    if j == 0 then 0
    else if MigratedLatAsWritten(lat, j - 1) > 0.0 then AsWrittenShift(lat, j - 1) - 1
    else AsWrittenShift(lat, j - 1) + 1
  }

  /** Every latitude the loop as written visits differs from the start by a whole number of degrees. */
  lemma {:induction false} AsWrittenWholeDegreeOffset(lat: real, j: nat)
    ensures MigratedLatAsWritten(lat, j) == lat + AsWrittenShift(lat, j) as real
  {
    if j > 0 {
      AsWrittenWholeDegreeOffset(lat, j - 1);
    }
  }

  lemma NotWholePlusWholeIsNotZero(x: real, k: int)
    requires x.Floor as real != x
    ensures x + k as real != 0.0
  {
    var n := x.Floor;
    assert n as real < x < n as real + 1.0;
    assert (n + k) as real < x + k as real < (n + k + 1) as real;
    if n + k >= 0 {
      assert x + k as real > 0.0;
    } else {
      assert x + k as real < 0.0;
    }

  }

  /** From a latitude that is not a whole degree, the loop as written never reaches 0. */
  lemma AsWrittenNeverReachesEquator(lat: real, j: nat)
    requires lat.Floor as real != lat
    ensures MigratedLatAsWritten(lat, j) != 0.0
  {
    AsWrittenWholeDegreeOffset(lat, j);
    NotWholePlusWholeIsNotZero(lat, AsWrittenShift(lat, j));
  }

  /**
   * When every 18-degree call fails, the loop as written, started from a latitude
   * that is not a whole degree, never returns, whatever the iteration budget.
   * `loc` is the state after `j` iterations from `start`.
   */
  lemma {:induction false} AsWrittenSpinsForever(sky: Sky, kind: Kind, start: real, j: nat, loc: Location, d: Day, fuel: nat)
    requires start.Floor as real != start
    requires loc.lat == MigratedLatAsWritten(start, j)
    requires forall l :: sky(kind, l, d, Deg18).None?
    ensures MigrateAsWritten(sky, kind, loc, d, fuel).None?
    decreases fuel
  {
    AsWrittenNeverReachesEquator(start, j);
    if fuel > 0 {
      AsWrittenSpinsForever(sky, kind, start, j + 1, AtLat(loc, StepAsWritten(loc.lat)), d, fuel - 1);
    }
  }

  /** Concrete case: at latitude 70.5 with every 18-degree call failing, the loop as written runs forever. */
  lemma HalfDegreeLatitudeNeverReturns(fuel: nat)
    ensures MigrateAsWritten((k: Kind, l: Location, day: Day, p: Depression) => None, Dawn, Location(70.5, 0.0, 0), 0, fuel).None?
  {
    AsWrittenSpinsForever((k: Kind, l: Location, day: Day, p: Depression) => None, Dawn, 70.5, 0, Location(70.5, 0.0, 0), 0, fuel);
  }

  /** On whole-degree latitudes the loop as written and the corrected walk coincide. */
  lemma {:induction false} AsWrittenAgreesOnWholeDegrees(sky: Sky, kind: Kind, lat: int, loc: Location, d: Day, fuel: nat)
    requires loc.lat == lat as real
    requires fuel >= (if lat < 0 then -lat else lat)
    ensures MigrateAsWritten(sky, kind, loc, d, fuel) == Some(Migrate(sky, kind, loc, d))
    decreases fuel
  {
    if lat != 0 {
      var step := if lat > 0 then lat - 1 else lat + 1;
      assert StepTowardEquator(loc.lat) == StepAsWritten(loc.lat) == step as real;
      AsWrittenAgreesOnWholeDegrees(sky, kind, step, AtLat(loc, step as real), d, fuel - 1);
    }
  }

  // ---------------------------------------------------------------------------
  // Output formatting

  /** `fmt`: the local "HH:MM" rendering of an instant, or "--:--" when missing. */
  function Fmt(clock: Instant -> string, t: Option<Instant>): string {
    if t.Some? then clock(t.value) else "--:--"
  }

  function KindLabel(kind: Kind): string {
    if kind == Dawn then "Dawn" else "Dusk"
  }

  /** The line printed for a dawn or dusk event, chosen by its tag. */
  function EventLine(kind: Kind, tag: Tag, time: string): string {
    if tag == Astronomical then KindLabel(kind) + ": " + time
    else if tag == Nautical || tag == Civil || tag == TierTag(kind, Horizon) then
      KindLabel(kind) + ": " + time + " (secondary: " + TagName(tag) + ")"
    else if tag == Migrated then KindLabel(kind) + ": " + time + " (secondary: migrated)"
    else KindLabel(kind) + ": --:-- (not found)"
  }

  /**
   * For a resolved event, the line reads "(not found)" exactly when no instant
   * was found, and carries no "(secondary: ...)" suffix exactly when the
   * astronomical tier succeeded.
   */
  lemma EventLineReportsOutcome(sky: Sky, kind: Kind, loc: Location, d: Day, clock: Instant -> string)
    requires forall i: Instant :: |clock(i)| == 5
    ensures var e := Resolved(sky, kind, loc, d);
      var line := EventLine(kind, e.tag, Fmt(clock, e.time));
      && (line == KindLabel(kind) + ": --:-- (not found)" <==> e.time.None?)
      && (line == KindLabel(kind) + ": " + Fmt(clock, e.time) <==> e.tag == Astronomical)
  {
    ResolvedTierOrder(sky, kind, loc, d);
    var e := Resolved(sky, kind, loc, d);
    var t := Fmt(clock, e.time);
    var line := EventLine(kind, e.tag, t);
    assert |KindLabel(kind)| == 4;
    assert |KindLabel(kind) + ": --:-- (not found)"| == 23;
    assert |t| == 5 by {
      if e.time.Some? {
        var v: Instant := e.time.value;
        assert t == clock(v);
        assert |clock(v)| == 5;
      } else {
        assert t == "--:--";
      }
    }
    assert |KindLabel(kind) + ": " + t| == 11;
    if e.tag == Migrated {
      assert line == KindLabel(kind) + ": " + t + " (secondary: migrated)";
    } else if e.tag != Astronomical && e.tag != NotFound {
      assert line == KindLabel(kind) + ": " + t + " (secondary: " + TagName(e.tag) + ")";
    }
  }

  /** `get_sunrise`: the horizon tier for dawn; None instead of an exception. */
  function GetSunrise(sky: Sky, loc: Location, d: Day): Option<Instant> {
    sky(Dawn, loc, d, Horizon)
  }

  /** `get_sunset`: the horizon tier for dusk; None instead of an exception. */
  function GetSunset(sky: Sky, loc: Location, d: Day): Option<Instant> {
    sky(Dusk, loc, d, Horizon)
  }

  /**
   * The text lines of `get_sun_events_for_date` up to the dusk line: location,
   * dawn, sunrise, sunset and dusk.
   */
  function SunEventLines(sky: Sky, loc: Location, d: Day, name: Option<string>, clock: Instant -> string): (lines: seq<string>)
    ensures |lines| == 5
    ensures lines[2] == "Sunrise: " + Fmt(clock, GetSunrise(sky, loc, d))
    ensures lines[3] == "Sunset: " + Fmt(clock, GetSunset(sky, loc, d))
  {
    var dawn := Resolved(sky, Dawn, loc, d);
    var dusk := Resolved(sky, Dusk, loc, d);
    var display := if name.Some? && name.value != "" then name.value else "Greenwich, England";
    ["Location: " + display,
     EventLine(Dawn, dawn.tag, Fmt(clock, dawn.time)),
     "Sunrise: " + Fmt(clock, GetSunrise(sky, loc, d)),
     "Sunset: " + Fmt(clock, GetSunset(sky, loc, d)),
     EventLine(Dusk, dusk.tag, Fmt(clock, dusk.time))]
  }

  /** A sunrise-tagged dawn is the instant `get_sunrise` reports for the same date. */
  lemma SunriseTagMatchesGetSunrise(sky: Sky, loc: Location, d: Day)
    ensures Resolved(sky, Dawn, loc, d).tag == Sunrise ==>
      Resolved(sky, Dawn, loc, d).time == GetSunrise(sky, loc, d) && GetSunrise(sky, loc, d).Some?
  {
    MigrateOutcome(sky, Dawn, loc, d);
  }
}
