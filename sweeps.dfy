/**
 * The dawn sweeps behind the SVG maps (backend/astronomy/map.py, repeated in
 * backend/astronomy/map/map.py): fixed-offset zones from longitude, the first
 * dawn after an instant, and the selection rules that pick, along a line of
 * observers, the earliest dawn, the first observer with a dawn, or the places
 * where dawn comes earlier further west.
 */
module Sweeps {
  import opened Wrappers
  import opened Instants
  import opened Sun
  import opened Moon
  import opened Heatmaps

  // ---------------------------------------------------------------------------
  // Ranges and zones

  /** Python's `range(start, stop, step)`. */
  function PyRange(start: int, stop: int, step: int): (r: seq<int>)
    requires step != 0
    ensures forall k :: 0 <= k < |r| ==> r[k] == start + k * step
    ensures forall k :: 0 <= k < |r| ==> if step > 0 then r[k] < stop else r[k] > stop
    decreases if step > 0 then stop - start else start - stop
  {
    if (step > 0 && start >= stop) || (step < 0 && start <= stop) then []
    else
      var rest := PyRange(start + step, stop, step);
      ShiftByStep(start, step, |rest|);
      [start] + rest
  }

  lemma ShiftByStep(start: int, step: int, n: nat)
    ensures forall k :: 1 <= k <= n ==> (start + step) + (k - 1) * step == start + k * step
  {
    forall k | 1 <= k <= n
      ensures (start + step) + (k - 1) * step == start + k * step
    {
      assert (k - 1) * step == k * step - step;
    }
  }

  /**
   * `_tz_from_lon` on the whole-degree longitudes the sweeps use: the fixed
   * offset, in minutes east of UTC, of the whole hour nearest to `lon / 15`
   * (a whole degree never lies halfway between two hours).
   */
  function TzFromLon(lon: int): (minutes: int)
    ensures minutes % 60 == 0
    ensures -30 <= minutes - 4 * lon <= 30
  {
    var q, rem := lon / 15, lon % 15;
    (if 2 * rem > 15 then q + 1 else q) * 60
  }

  /** The integer form agrees with Python's rounding of `lon / 15.0`. */
  lemma TzFromLonRounds(lon: int)
    ensures TzFromLon(lon) == ZoneHours(lon as real) * 60
  {
    var q, rem := lon / 15, lon % 15;
    var h := if 2 * rem > 15 then q + 1 else q;
    var x := lon as real / 15.0;
    assert x == q as real + rem as real / 15.0;
    var r := ZoneHours(lon as real);
    assert -0.5 <= r as real - x <= 0.5;
    assert 2 * rem != 15;
    if 2 * rem > 15 {
      assert x > q as real + 0.5;
    } else {
      assert x < q as real + 0.5;
    }
    assert r == h;
  }

  /** On the map's longitudes the offset stays within twelve hours of UTC. */
  lemma TzFromLonRange(lon: int)
    requires -180 <= lon <= 180
    ensures -720 <= TzFromLon(lon) <= 720
  {
  }

  /** The observer at (`lat`, `lon`) on the zone of `_tz_from_lon`. */
  function SweepLocation(lat: int, lon: int): Location {
    Location(lat as real, lon as real, TzFromLon(lon) * 60)
  }

  // ---------------------------------------------------------------------------
  // The first dawn after an instant

  /** `_first_dawn_after`: the first dawn strictly after `t`, probing `maxDays` dates from its local date. */
  method FirstDawnAfterUtc(sky: Sky, t: Instant, lat: int, lon: int, maxDays: nat) returns (dawn: Option<Instant>)
    ensures dawn == FirstDawnAfter(sky, SweepLocation(lat, lon), t, maxDays).time
  {
    var loc := SweepLocation(lat, lon);
    var date := LocalDate(t, loc.offset);
    for i := 0 to maxDays
      invariant FirstDawnFrom(sky, loc, t, date, i, maxDays) == FirstDawnAfter(sky, loc, t, maxDays)
    {
      var e := GetEventWithFallback(sky, Dawn, loc, date + i);
      if e.time.Some? && e.time.value > t {
        return e.time;
      }
    }
    return None;
  }

  /** `_first_dawn_after_with_tag`: the same dawn with the resolver's tag, or no dawn tagged `not_found`. */
  method FirstDawnAfterWithTag(sky: Sky, t: Instant, lat: int, lon: int, maxDays: nat) returns (e: Event)
    ensures e == FirstDawnAfter(sky, SweepLocation(lat, lon), t, maxDays)
  {
    var loc := SweepLocation(lat, lon);
    var date := LocalDate(t, loc.offset);
    for i := 0 to maxDays
      invariant FirstDawnFrom(sky, loc, t, date, i, maxDays) == FirstDawnAfter(sky, loc, t, maxDays)
    {
      var dawn := GetEventWithFallback(sky, Dawn, loc, date + i);
      if dawn.time.Some? && dawn.time.value > t {
        return dawn;
      }
    }
    return Event(None, NotFound);
  }

  // ---------------------------------------------------------------------------
  // Selection along a line of observers

  /** The instants of a line of resolved events. */
  function Times(es: seq<Event>): (ts: seq<Option<Instant>>)
    ensures |ts| == |es| && forall k :: 0 <= k < |es| ==> ts[k] == es[k].time
  {
    seq(|es|, k requires 0 <= k < |es| => es[k].time)
  }

  /** No observer of the line has a dawn. */
  predicate NoneFound(ts: seq<Option<Instant>>) {
    forall j :: 0 <= j < |ts| ==> ts[j].None?
  }

  /** Observer `i` has the earliest dawn of the line, and every observer before it has a strictly later one or none. */
  predicate FirstEarliest(ts: seq<Option<Instant>>, i: nat) {
    && i < |ts| && ts[i].Some?
    && (forall j :: 0 <= j < |ts| && ts[j].Some? ==> ts[i].value <= ts[j].value)
    && (forall j :: 0 <= j < i && ts[j].Some? ==> ts[i].value < ts[j].value)
  }

  /** The `best` of the sweeps after scanning `ts`: a found dawn replaces the best only when strictly earlier. */
  function Earliest(ts: seq<Option<Instant>>): (r: Option<nat>)
    ensures r.Some? ==> r.value < |ts| && ts[r.value].Some?
  {
    if |ts| == 0 then None
    else
      var b := Earliest(ts[..|ts| - 1]);
      var x := ts[|ts| - 1];
      if x.Some? && (b.None? || x.value < ts[b.value].value) then Some(|ts| - 1) else b
  }

  /** One more observer: the best changes only to a strictly earlier dawn. */
  lemma EarliestAppend(ts: seq<Option<Instant>>, x: Option<Instant>)
    ensures var b := Earliest(ts);
      Earliest(ts + [x]) == if x.Some? && (b.None? || x.value < ts[b.value].value) then Some(|ts|) else b
  {
    assert (ts + [x])[..|ts|] == ts;
  }

  /**
   * The sweeps' choice: none exactly when no observer has a dawn, otherwise
   * the observer with the earliest dawn, the first one scanned on a tie.
   */
  lemma {:induction false} EarliestMeaning(ts: seq<Option<Instant>>)
    ensures Earliest(ts).None? <==> NoneFound(ts)
    ensures Earliest(ts).Some? ==> FirstEarliest(ts, Earliest(ts).value)
  {
    if |ts| > 0 {
      var p := ts[..|ts| - 1];
      EarliestMeaning(p);
      assert forall j :: 0 <= j < |p| ==> p[j] == ts[j];
    }
  }

  /** The choice is determined: two observers cannot both be first-earliest. */
  lemma FirstEarliestUnique(ts: seq<Option<Instant>>, i: nat, j: nat)
    requires FirstEarliest(ts, i) && FirstEarliest(ts, j)
    ensures i == j
  {
  }

  /** The first observer of `ts[i..]` with a dawn. */
  function FirstFoundFrom(ts: seq<Option<Instant>>, i: nat): (r: Option<nat>)
    requires i <= |ts|
    ensures r.Some? ==> i <= r.value < |ts| && ts[r.value].Some? && forall j :: i <= j < r.value ==> ts[j].None?
    ensures r.None? ==> forall j :: i <= j < |ts| ==> ts[j].None?
    decreases |ts| - i
  {
    if i == |ts| then None
    else if ts[i].Some? then Some(i)
    else FirstFoundFrom(ts, i + 1)
  }

  // ---------------------------------------------------------------------------
  // The dawn map: per longitude, the latitude with the earliest dawn

  /** A plotted point of the dawn map: longitude, chosen latitude, its dawn and tag. */
  datatype DawnPoint = DawnPoint(lon: int, lat: int, time: Instant, tag: Tag)

  /** The resolved dawns of date `d` along longitude `lon`, one per latitude of `lats`. */
  function ColumnEvents(sky: Sky, lats: seq<int>, lon: int, d: Day): seq<Event> {
    seq(|lats|, k requires 0 <= k < |lats| => Resolved(sky, Dawn, SweepLocation(lats[k], lon), d))
  }

  /** The point of a column whose events are `es`: the earliest dawn, with its latitude and tag. */
  function PickPoint(lon: int, lats: seq<int>, es: seq<Event>): Option<DawnPoint>
    requires |es| <= |lats|
  {
    match Earliest(Times(es))
    case None => None
    case Some(i) => Some(DawnPoint(lon, lats[i], es[i].time.value, es[i].tag))
  }

  /** The point of longitude `lon`: the latitude whose dawn on date `d` is earliest in UTC. */
  function ColumnPoint(sky: Sky, lats: seq<int>, lon: int, d: Day): Option<DawnPoint> {
    PickPoint(lon, lats, ColumnEvents(sky, lats, lon, d))
  }

  /** One more latitude: the point moves to it only when its dawn is strictly earlier. */
  lemma PickPointAppend(lon: int, lats: seq<int>, es: seq<Event>, e: Event)
    requires |es| < |lats|
    ensures var b := PickPoint(lon, lats, es);
      PickPoint(lon, lats, es + [e]) ==
        if e.time.Some? && (b.None? || e.time.value < b.value.time) then Some(DawnPoint(lon, lats[|es|], e.time.value, e.tag)) else b
  {
    assert Times(es + [e]) == Times(es) + [e.time];
    EarliestAppend(Times(es), e.time);
  }

  /** The latitude loop of `generate_dawn_map_svg` for one longitude. */
  method EarliestDawnColumn(sky: Sky, lats: seq<int>, lon: int, d: Day) returns (best: Option<DawnPoint>)
    ensures best == ColumnPoint(sky, lats, lon, d)
  {
    ghost var es := ColumnEvents(sky, lats, lon, d);
    best := None;
    for k := 0 to |lats|
      invariant best == PickPoint(lon, lats, es[..k])
    {
      var e := GetEventWithFallback(sky, Dawn, SweepLocation(lats[k], lon), d);
      assert e == es[k];
      assert es[..k + 1] == es[..k] + [e];
      PickPointAppend(lon, lats, es[..k], e);
      if e.time.Some? && (best.None? || e.time.value < best.value.time) {
        best := Some(DawnPoint(lon, lats[k], e.time.value, e.tag));
      }
    }
    assert es[..|lats|] == es;
  }

  /** The columns of the dawn map, one per longitude. */
  function Columns(sky: Sky, lons: seq<int>, lats: seq<int>, d: Day): seq<Option<DawnPoint>> {
    seq(|lons|, k requires 0 <= k < |lons| => ColumnPoint(sky, lats, lons[k], d))
  }

  /** The points of the dawn map: one per longitude with some dawn, in longitude order. */
  function DawnMap(sky: Sky, lons: seq<int>, lats: seq<int>, d: Day): seq<DawnPoint> {
    Somes(Columns(sky, lons, lats, d))
  }

  /** The sweep of `generate_dawn_map_svg` over the longitudes `lons` and latitudes `lats` on date `d`. */
  method DawnMapPoints(sky: Sky, lons: seq<int>, lats: seq<int>, d: Day) returns (points: seq<DawnPoint>)
    ensures points == DawnMap(sky, lons, lats, d)
  {
    ghost var cols := Columns(sky, lons, lats, d);
    points := [];
    for k := 0 to |lons|
      invariant points == Somes(cols[..k])
    {
      var best := EarliestDawnColumn(sky, lats, lons[k], d);
      assert best == cols[k];
      SomesPrefix(cols, k);
      if best.Some? {
        points := points + [best.value];
      }
    }
    assert cols[..|lons|] == cols;
  }

  /**
   * A longitude gets a point exactly when one of its latitudes has a dawn,
   * and the point is the latitude with the earliest dawn (the first scanned on
   * a tie), with that dawn's time and tag.
   */
  lemma DawnMapMeaning(sky: Sky, lons: seq<int>, lats: seq<int>, d: Day, k: nat)
    requires k < |lons|
    ensures var es := ColumnEvents(sky, lats, lons[k], d);
      var ts := Times(es);
      && (NoneFound(ts) <==> ColumnPoint(sky, lats, lons[k], d).None?)
      && (!NoneFound(ts) ==> exists i: nat :: (FirstEarliest(ts, i)
            && DawnPoint(lons[k], lats[i], es[i].time.value, es[i].tag) in DawnMap(sky, lons, lats, d)))
  {
    var es := ColumnEvents(sky, lats, lons[k], d);
    var ts := Times(es);
    var cols := Columns(sky, lons, lats, d);
    EarliestMeaning(ts);
    SomesMeaning(cols);
    if !NoneFound(ts) {
      var i := Earliest(ts).value;
      assert cols[k] == Some(DawnPoint(lons[k], lats[i], es[i].time.value, es[i].tag));
    }
  }

  // ---------------------------------------------------------------------------
  // The longitude sweep and its flips

  /** A plotted point of the flip test: longitude, latitude and dawn. */
  datatype SweepPoint = SweepPoint(lon: int, lat: int, time: Instant)

  /** The first dawn after `t` of the observer at (`lat`, `lon`), with its tag. */
  function RowEvent(sky: Sky, t: Instant, lat: int, lon: int): Event {
    FirstDawnAfter(sky, SweepLocation(lat, lon), t, SearchHorizon)
  }

  /** The first dawns after `t` along latitude `lat`, one per longitude of `lons`. */
  function RowEvents(sky: Sky, t: Instant, lat: int, lons: seq<int>): seq<Event> {
    seq(|lons|, k requires 0 <= k < |lons| => RowEvent(sky, t, lat, lons[k]))
  }

  function RowDawns(sky: Sky, t: Instant, lat: int, lons: seq<int>): seq<Option<Instant>> {
    Times(RowEvents(sky, t, lat, lons))
  }

  lemma RowDawnAt(sky: Sky, t: Instant, lat: int, lons: seq<int>, k: nat)
    requires k < |lons|
    ensures |RowDawns(sky, t, lat, lons)| == |lons|
    ensures RowDawns(sky, t, lat, lons)[k] == RowEvent(sky, t, lat, lons[k]).time
  {
  }

  /** Each longitude with a dawn, as a point. */
  function FoundSeq(lons: seq<int>, dawns: seq<Option<Instant>>, lat: int): seq<Option<SweepPoint>>
    requires |dawns| == |lons|
  {
    seq(|lons|, i requires 0 <= i < |lons| => if dawns[i].Some? then Some(SweepPoint(lons[i], lat, dawns[i].value)) else None)
  }

  /** A flip at `lons[i]`: both it and the previous longitude have a dawn, and its own is strictly earlier. */
  function FlipSeq(lons: seq<int>, dawns: seq<Option<Instant>>, lat: int): seq<Option<SweepPoint>>
    requires |dawns| == |lons|
  {
    seq(|lons|, i requires 0 <= i < |lons| =>
      if i > 0 && dawns[i - 1].Some? && dawns[i].Some? && dawns[i].value < dawns[i - 1].value
      then Some(SweepPoint(lons[i], lat, dawns[i].value))
      else None)
  }

  function Found(lons: seq<int>, dawns: seq<Option<Instant>>, lat: int): seq<SweepPoint>
    requires |dawns| == |lons|
  {
    Somes(FoundSeq(lons, dawns, lat))
  }

  function Flips(lons: seq<int>, dawns: seq<Option<Instant>>, lat: int): seq<SweepPoint>
    requires |dawns| == |lons|
  {
    Somes(FlipSeq(lons, dawns, lat))
  }

  /** The dawn lookup table of the longitude sweep, filled longitude by longitude. */
  method SweepDawns(sky: Sky, t: Instant, lat: int, lons: seq<int>) returns (dawns: map<int, Option<Instant>>)
    ensures forall j :: 0 <= j < |lons| ==> lons[j] in dawns && dawns[lons[j]] == RowDawns(sky, t, lat, lons)[j]
  {
    dawns := map[];
    for i := 0 to |lons|
      invariant forall j :: 0 <= j < i ==> lons[j] in dawns && dawns[lons[j]] == RowEvent(sky, t, lat, lons[j]).time
    {
      var dawn := FirstDawnAfterUtc(sky, t, lat, lons[i], SearchHorizon);
      assert dawn == RowEvent(sky, t, lat, lons[i]).time;
      dawns := dawns[lons[i] := dawn];
    }
    forall j | 0 <= j < |lons|
      ensures lons[j] in dawns && dawns[lons[j]] == RowDawns(sky, t, lat, lons)[j]
    {
      RowDawnAt(sky, t, lat, lons, j);
    }
  }

  /** The point and flip loop of the longitude sweep, over the looked-up dawns `row`. */
  method MarkFlips(lons: seq<int>, dawns: map<int, Option<Instant>>, ghost row: seq<Option<Instant>>, lat: int)
    returns (points: seq<SweepPoint>, flips: seq<SweepPoint>)
    requires |row| == |lons|
    requires forall j :: 0 <= j < |lons| ==> lons[j] in dawns && dawns[lons[j]] == row[j]
    ensures points == Found(lons, row, lat)
    ensures flips == Flips(lons, row, lat)
  {
    ghost var found := FoundSeq(lons, row, lat);
    ghost var flipped := FlipSeq(lons, row, lat);
    points, flips := [], [];
    for i := 0 to |lons|
      invariant points == Somes(found[..i])
      invariant flips == Somes(flipped[..i])
    {
      var d := dawns[lons[i]];
      assert d == row[i];
      assert found[i] == if d.Some? then Some(SweepPoint(lons[i], lat, d.value)) else None;
      SomesPrefix(found, i);
      if d.Some? {
        points := points + [SweepPoint(lons[i], lat, d.value)];
      }
      SomesPrefix(flipped, i);
      if i > 0 {
        var da := dawns[lons[i - 1]];
        assert da == row[i - 1];
        if da.Some? && d.Some? && d.value < da.value {
          flips := flips + [SweepPoint(lons[i], lat, d.value)];
        }
      }
    }
    assert found[..|lons|] == found;
    assert flipped[..|lons|] == flipped;
  }

  /**
   * The longitude sweep of `generate_flip_test_svg` along latitude `lat`: the
   * dawns are looked up by longitude, every longitude with a dawn is a point,
   * and every later longitude whose dawn is earlier than the previous one's is
   * a flip.
   */
  method LongitudeSweep(sky: Sky, t: Instant, lat: int, lons: seq<int>) returns (points: seq<SweepPoint>, flips: seq<SweepPoint>)
    ensures points == Found(lons, RowDawns(sky, t, lat, lons), lat)
    ensures flips == Flips(lons, RowDawns(sky, t, lat, lons), lat)
  {
    var dawns := SweepDawns(sky, t, lat, lons);
    points, flips := MarkFlips(lons, dawns, RowDawns(sky, t, lat, lons), lat);
  }

  /** A flip is recorded at `lons[i]` exactly when both neighbours' dawns exist and the later longitude's is strictly earlier. */
  lemma FlipsMeaning(lons: seq<int>, dawns: seq<Option<Instant>>, lat: int)
    requires |dawns| == |lons|
    ensures forall i :: 0 < i < |lons| && dawns[i - 1].Some? && dawns[i].Some? && dawns[i].value < dawns[i - 1].value ==>
      SweepPoint(lons[i], lat, dawns[i].value) in Flips(lons, dawns, lat)
    ensures forall p :: p in Flips(lons, dawns, lat) ==> exists i :: (0 < i < |lons|
      && dawns[i - 1].Some? && dawns[i] == Some(p.time) && p.time < dawns[i - 1].value && p == SweepPoint(lons[i], lat, p.time))
  {
    var flipped := FlipSeq(lons, dawns, lat);
    SomesMeaning(flipped);
    forall i | 0 < i < |lons| && dawns[i - 1].Some? && dawns[i].Some? && dawns[i].value < dawns[i - 1].value
      ensures SweepPoint(lons[i], lat, dawns[i].value) in Flips(lons, dawns, lat)
    {
      assert flipped[i] == Some(SweepPoint(lons[i], lat, dawns[i].value));
    }
    forall p | p in Flips(lons, dawns, lat)
      ensures exists i :: (0 < i < |lons|
        && dawns[i - 1].Some? && dawns[i] == Some(p.time) && p.time < dawns[i - 1].value && p == SweepPoint(lons[i], lat, p.time))
    {
      var i :| 0 <= i < |flipped| && flipped[i] == Some(p);
    }
  }

  /** Along a line whose dawns never come earlier going west, the sweep records no flip. */
  lemma NoFlipWithoutEarlierDawn(lons: seq<int>, dawns: seq<Option<Instant>>, lat: int)
    requires |dawns| == |lons|
    requires forall i :: 0 < i < |lons| && dawns[i - 1].Some? && dawns[i].Some? ==> dawns[i - 1].value <= dawns[i].value
    ensures forall p :: p !in Flips(lons, dawns, lat)
  {
    FlipsMeaning(lons, dawns, lat);
  }

  // ---------------------------------------------------------------------------
  // The green sweep: per latitude, the first longitude westward with a dawn

  /** The green point of a line whose dawns are `ts`: the first longitude with a dawn. */
  function GreenPick(lat: int, lons: seq<int>, ts: seq<Option<Instant>>): Option<SweepPoint>
    requires |ts| == |lons|
  {
    match FirstFoundFrom(ts, 0)
    case None => None
    case Some(i) => Some(SweepPoint(lons[i], lat, ts[i].value))
  }

  /** The green point of latitude `lat`: the first longitude of `lons` with a dawn after `t`. */
  function GreenPoint(sky: Sky, t: Instant, lat: int, lons: seq<int>): Option<SweepPoint> {
    GreenPick(lat, lons, RowDawns(sky, t, lat, lons))
  }

  /** The green point is the first longitude with a dawn. */
  lemma GreenPickAt(lat: int, lons: seq<int>, ts: seq<Option<Instant>>, k: nat)
    requires |ts| == |lons| && k < |ts| && ts[k].Some?
    requires forall j :: 0 <= j < k ==> ts[j].None?
    ensures GreenPick(lat, lons, ts) == Some(SweepPoint(lons[k], lat, ts[k].value))
  {
  }

  /** The inner loop of the green sweep along latitude `lat`, which stops at the first longitude with a dawn. */
  method FirstLongitudeWithDawn(sky: Sky, t: Instant, lat: int, lons: seq<int>) returns (p: Option<SweepPoint>)
    ensures p == GreenPoint(sky, t, lat, lons)
  {
    ghost var row := RowDawns(sky, t, lat, lons);
    assert |row| == |lons|;
    for k := 0 to |lons|
      invariant forall j :: 0 <= j < k ==> row[j].None?
    {
      var d := FirstDawnAfterUtc(sky, t, lat, lons[k], SearchHorizon);
      RowDawnAt(sky, t, lat, lons, k);
      assert d == row[k];
      if d.Some? {
        GreenPickAt(lat, lons, row, k);
        return Some(SweepPoint(lons[k], lat, d.value));
      }
    }
    assert FirstFoundFrom(row, 0).None?;
    return None;
  }

  function GreenRows(sky: Sky, t: Instant, lats: seq<int>, lons: seq<int>): seq<Option<SweepPoint>> {
    seq(|lats|, k requires 0 <= k < |lats| => GreenPoint(sky, t, lats[k], lons))
  }

  function GreenSweepPoints(sky: Sky, t: Instant, lats: seq<int>, lons: seq<int>): seq<SweepPoint> {
    Somes(GreenRows(sky, t, lats, lons))
  }

  /** The green sweep of `generate_flip_test_svg`: latitudes without any dawn are skipped. */
  method GreenSweep(sky: Sky, t: Instant, lats: seq<int>, lons: seq<int>) returns (points: seq<SweepPoint>)
    ensures points == GreenSweepPoints(sky, t, lats, lons)
  {
    ghost var rows := GreenRows(sky, t, lats, lons);
    points := [];
    for k := 0 to |lats|
      invariant points == Somes(rows[..k])
    {
      var p := FirstLongitudeWithDawn(sky, t, lats[k], lons);
      assert p == rows[k];
      SomesPrefix(rows, k);
      if p.Some? {
        points := points + [p.value];
      }
    }
    assert rows[..|lats|] == rows;
  }

  /**
   * A latitude gets a green point exactly when some longitude has a dawn; the
   * point is the first such longitude in sweep order, and every longitude
   * before it has none.
   */
  lemma GreenPickMeaning(lat: int, lons: seq<int>, ts: seq<Option<Instant>>)
    requires |ts| == |lons|
    ensures var p := GreenPick(lat, lons, ts);
      && (p.None? <==> NoneFound(ts))
      && (p.Some? ==> exists i :: (0 <= i < |lons| && ts[i].Some? && p.value == SweepPoint(lons[i], lat, ts[i].value)
            && forall j :: 0 <= j < i ==> ts[j].None?))
  {
    var r := FirstFoundFrom(ts, 0);
    if r.Some? {
      assert !NoneFound(ts) by { assert ts[r.value].Some?; }
    }
  }

  // ---------------------------------------------------------------------------
  // The chosen longitude per latitude

  /** The longitude chosen for a latitude and the tag of its dawn. */
  datatype Choice = Choice(lon: int, tag: Tag)

  /** The choice of a line whose events are `es`: the longitude with the earliest dawn, and its tag. */
  function PickChoice(lons: seq<int>, es: seq<Event>): Option<Choice>
    requires |es| <= |lons|
  {
    match Earliest(Times(es))
    case None => None
    case Some(i) => Some(Choice(lons[i], es[i].tag))
  }

  /** The choice for latitude `lat`: the longitude of `lons` with the earliest dawn after `t`. */
  function ChoiceAt(sky: Sky, t: Instant, lat: int, lons: seq<int>): Option<Choice> {
    PickChoice(lons, RowEvents(sky, t, lat, lons))
  }

  /** The running best `(dawn, lon, tag)` after the events `es`. */
  function BestSoFar(lons: seq<int>, es: seq<Event>): Option<(Instant, int, Tag)>
    requires |es| <= |lons|
  {
    match Earliest(Times(es))
    case None => None
    case Some(i) => Some((es[i].time.value, lons[i], es[i].tag))
  }

  /** One more longitude: the running best moves to it only when its dawn is strictly earlier. */
  lemma BestSoFarAppend(lons: seq<int>, es: seq<Event>, e: Event)
    requires |es| < |lons|
    ensures var b := BestSoFar(lons, es);
      BestSoFar(lons, es + [e]) ==
        if e.time.Some? && (b.None? || e.time.value < b.value.0) then Some((e.time.value, lons[|es|], e.tag)) else b
  {
    assert Times(es + [e]) == Times(es) + [e.time];
    EarliestAppend(Times(es), e.time);
  }

  /** The choice is the longitude and tag of the running best. */
  lemma ChoiceOfBest(lons: seq<int>, es: seq<Event>)
    requires |es| <= |lons|
    ensures var b := BestSoFar(lons, es);
      PickChoice(lons, es) == if b.Some? then Some(Choice(b.value.1, b.value.2)) else None
  {
  }

  /** The longitude loop of `generate_true_points_svg` for one latitude. */
  method EarliestDawnRow(sky: Sky, t: Instant, lat: int, lons: seq<int>) returns (choice: Option<Choice>)
    ensures choice == ChoiceAt(sky, t, lat, lons)
  {
    ghost var es := RowEvents(sky, t, lat, lons);
    var best: Option<(Instant, int, Tag)> := None;
    for k := 0 to |lons|
      invariant best == BestSoFar(lons, es[..k])
    {
      var e := FirstDawnAfterWithTag(sky, t, lat, lons[k], SearchHorizon);
      assert e == es[k];
      assert es[..k + 1] == es[..k] + [e];
      BestSoFarAppend(lons, es[..k], e);
      if e.time.Some? {
        if best.None? || e.time.value < best.value.0 {
          best := Some((e.time.value, lons[k], e.tag));
        }
      }
    }
    assert es[..|lons|] == es;
    ChoiceOfBest(lons, es);
    choice := if best.Some? then Some(Choice(best.value.1, best.value.2)) else None;
  }

  /** `chosen_by_lat` of `generate_true_points_svg`: one entry per swept latitude. */
  method ChooseByLatitude(sky: Sky, t: Instant, lats: seq<int>, lons: seq<int>) returns (chosen: map<int, Option<Choice>>)
    ensures forall lat :: lat in chosen <==> lat in lats
    ensures forall lat :: lat in chosen ==> chosen[lat] == ChoiceAt(sky, t, lat, lons)
  {
    chosen := map[];
    for k := 0 to |lats|
      invariant forall lat :: lat in chosen <==> lat in lats[..k]
      invariant forall lat :: lat in chosen ==> chosen[lat] == ChoiceAt(sky, t, lat, lons)
    {
      var c := EarliestDawnRow(sky, t, lats[k], lons);
      chosen := chosen[lats[k] := c];
      assert lats[..k + 1] == lats[..k] + [lats[k]];
    }
    assert lats[..|lats|] == lats;
  }

  /**
   * A line has no choice exactly when none of its longitudes has a dawn;
   * otherwise the chosen longitude has the earliest dawn, the first scanned on
   * a tie, and carries that dawn's tag.
   */
  lemma PickChoiceMeaning(lons: seq<int>, es: seq<Event>)
    requires |es| == |lons|
    ensures var ts := Times(es);
      var c := PickChoice(lons, es);
      && (c.None? <==> NoneFound(ts))
      && (c.Some? ==> exists i: nat :: FirstEarliest(ts, i) && c.value == Choice(lons[i], es[i].tag))
  {
    EarliestMeaning(Times(es));
  }

  // ---------------------------------------------------------------------------
  // The sweeps as the map scripts run them

  /** Longitudes 0, -1, ..., -45 along the equator. */
  const EquatorLons: seq<int> := PyRange(0, -46, -1)

  /** Latitudes 0 to 85 northward, then -1 to -85 southward. */
  const SweepLats: seq<int> := PyRange(0, 86, 1) + PyRange(-1, -86, -1)

  /** Longitudes 0, -1, ..., -180 westward. */
  const GreenLons: seq<int> := PyRange(0, -181, -1)

  /** The equator sweep with its flips and the green sweep, from the last full moon `prevFull`. */
  method FlipTest(sky: Sky, prevFull: Instant) returns (lonPoints: seq<SweepPoint>, flips: seq<SweepPoint>, green: seq<SweepPoint>)
    ensures lonPoints == Found(EquatorLons, RowDawns(sky, prevFull, 0, EquatorLons), 0)
    ensures flips == Flips(EquatorLons, RowDawns(sky, prevFull, 0, EquatorLons), 0)
    ensures green == GreenSweepPoints(sky, prevFull, SweepLats, GreenLons)
  {
    lonPoints, flips := LongitudeSweep(sky, prevFull, 0, EquatorLons);
    green := GreenSweep(sky, prevFull, SweepLats, GreenLons);
  }

  /** The chosen longitudes of `generate_true_points_svg`, from 0 west to `maxWest`. */
  method TruePoints(sky: Sky, prevFull: Instant, maxWest: int) returns (chosen: map<int, Option<Choice>>)
    ensures forall lat :: lat in chosen <==> lat in SweepLats
    ensures forall lat :: lat in chosen ==> chosen[lat] == ChoiceAt(sky, prevFull, lat, PyRange(0, maxWest - 1, -1))
  {
    chosen := ChooseByLatitude(sky, prevFull, SweepLats, PyRange(0, maxWest - 1, -1));
  }

  /** The dawn map of date `d` over `range(-180, 180, lonStep)` and `range(-90, 91, latStep)`. */
  method DawnMapOf(sky: Sky, d: Day, lonStep: int, latStep: int) returns (points: seq<DawnPoint>)
    requires lonStep != 0 && latStep != 0
    ensures points == DawnMap(sky, PyRange(-180, 180, lonStep), PyRange(-90, 91, latStep), d)
  {
    points := DawnMapPoints(sky, PyRange(-180, 180, lonStep), PyRange(-90, 91, latStep), d);
  }
}
