/**
 * The lunar-month heatmaps (backend/astronomy/map/generate_lunar_heatmaps.py
 * and backend/astronomy/map/month_length_heatmap.py): every map cell gets a
 * whole-hour time zone from its longitude and is classified by the length of
 * its current lunar month; the maps for all full moons are produced starting
 * with the full moon nearest to now.
 */
module Heatmaps {
  import opened Wrappers
  import opened Instants
  import opened Text
  import opened Sun
  import opened Tables
  import opened Moon

  // ---------------------------------------------------------------------------
  // Whole-hour zones from longitude

  /** Python's `round` on a float: to the nearest integer, halves to the even neighbour. */
  function RoundHalfEven(x: real): (r: int)
    ensures -0.5 <= r as real - x <= 0.5
    ensures (r as real - x == 0.5 || x - r as real == 0.5) ==> r % 2 == 0
  {
    var n := x.Floor;
    assert n as real <= x < n as real + 1.0;
    var f := x - n as real;
    if f < 0.5 then n
    else if f > 0.5 then n + 1
    else if n % 2 == 0 then n
    else n + 1
  }

  /** The zone hour offset a longitude is rounded to: `round(lon / 15)`. */
  function ZoneHours(lon: real): int {
    RoundHalfEven(lon / 15.0)
  }

  /** Longitudes on the map give offsets between -12 and +12 hours. */
  lemma ZoneHoursRange(lon: real)
    requires -180.0 <= lon <= 180.0
    ensures -12 <= ZoneHours(lon) <= 12
  {
  }

  /**
   * The fixed-offset zones of the time-zone database by name, as seconds east
   * of UTC: `UTC` and `Etc/GMT` (with `0`, `+0` or `-0`) are UTC, `Etc/GMT+N`
   * (N up to 12) lies N hours WEST of UTC and `Etc/GMT-N` (N up to 14) N hours
   * east. Any other name is unknown.
   */
  function EtcZoneOffset(name: string): Option<int> {
    if name == "UTC" || name == "Etc/GMT" then Some(0)
    else if |name| > 7 && name[..7] == "Etc/GMT" then
      var rest := name[7..];
      if rest == "0" || rest == "+0" || rest == "-0" then Some(0)
      else if |rest| >= 2 && (rest[0] == '+' || rest[0] == '-') && AllDigits(rest[1..]) && rest[1] != '0' then
        var n: int := ParseDigits(rest[1..]);
        if rest[0] == '+' && n <= 12 then Some(-n * 3600)
        else if rest[0] == '-' && n <= 14 then Some(n * 3600)
        else None
      else None
    else None
  }

  /** The zone name `get_local_timezone` builds for an offset of `k` hours. */
  function ZoneNameAsWritten(k: int): string {
    if k != 0 then "Etc/GMT" + IntToString(-k) else "UTC"
  }

  /** `get_local_timezone` as written: an unknown name falls back to UTC. */
  function ZoneOffsetAsWritten(k: int): int {
    EtcZoneOffset(ZoneNameAsWritten(k)).GetOr(0)
  }

  /** The name of the zone `k` hours east of UTC: `Etc/GMT-k` east, `Etc/GMT+|k|` west. */
  function ZoneName(k: int): string {
    if k > 0 then "Etc/GMT" + ['-'] + NatToString(k)
    else if k < 0 then "Etc/GMT" + ['+'] + NatToString(-k)
    else "UTC"
  }

  /** The zone offset the heatmaps use for an offset of `k` hours, with the same UTC fallback. */
  function ZoneOffset(k: int): int {
    EtcZoneOffset(ZoneName(k)).GetOr(0)
  }

  /** Looking up a signed `Etc/GMT` name gives the offset the sign stands for. */
  lemma SignedEtcName(sign: char, n: nat)
    requires sign == '+' || sign == '-'
    requires 1 <= n
    ensures var name := "Etc/GMT" + [sign] + NatToString(n);
      EtcZoneOffset(name) ==
        if sign == '+' then (if n <= 12 then Some(-(n as int) * 3600) else None)
        else (if n <= 14 then Some(n * 3600) else None)
  {
    var digits := NatToString(n);
    var name := "Etc/GMT" + [sign] + digits;
    assert |name| > 7 && name[..7] == "Etc/GMT";
    assert name != "UTC" && name != "Etc/GMT";
    var rest := name[7..];
    assert rest == [sign] + digits;
    assert rest[0] == sign && rest[1..] == digits;
    assert rest != "0" && rest != "+0" && rest != "-0" by {
      assert rest[1] == digits[0] != '0';
    }
    assert AllDigits(rest[1..]) && rest[1] != '0';
    ParseNatToString(n);
    assert ParseDigits(rest[1..]) == n;
  }

  /** Every whole-hour offset the map produces gets its own zone. */
  lemma ZoneOffsetCorrect(k: int)
    requires -12 <= k <= 12
    ensures ZoneOffset(k) == k * 3600
  {
    if k > 0 {
      SignedEtcName('-', k);
    } else if k < 0 {
      SignedEtcName('+', -k);
    }
  }

  /** As written, a zone east of UTC is found. */
  lemma AsWrittenEastFound(k: int)
    requires 1 <= k <= 12
    ensures ZoneOffsetAsWritten(k) == k * 3600
  {
    var digits := NatToString(k);
    assert IntToString(-k) == "-" + digits;
    assert ZoneNameAsWritten(k) == "Etc/GMT" + ['-'] + digits;
    SignedEtcName('-', k);
    assert EtcZoneOffset(ZoneNameAsWritten(k)) == Some(k * 3600);
  }

  /** As written, every zone west of UTC is named `Etc/GMT<digits>`, which is unknown, so the cell falls back to UTC. */
  lemma AsWrittenWestFallsBackToUtc(k: int)
    requires k < 0
    ensures EtcZoneOffset(ZoneNameAsWritten(k)).None?
    ensures ZoneOffsetAsWritten(k) == 0
  {
    var digits := NatToString(-k);
    var name := ZoneNameAsWritten(k);
    assert name == "Etc/GMT" + digits;
    assert name[..7] == "Etc/GMT";
    assert name[7..] == digits;
    assert IsDigit(digits[0]);
  }

  /** Longitude 75 degrees west (New York) is mapped to UTC instead of five hours west. */
  lemma WesternLongitudeGetsUtc()
    ensures ZoneHours(-75.0) == -5
    ensures ZoneOffsetAsWritten(ZoneHours(-75.0)) == 0
    ensures ZoneOffset(ZoneHours(-75.0)) == -5 * 3600
  {
    assert (-5.0).Floor == -5;
    AsWrittenWestFallsBackToUtc(-5);
    ZoneOffsetCorrect(-5);
  }

  /** The observer a heatmap cell stands for, in the corrected zone of its longitude. */
  function CellLocation(lat: real, lon: real): Location {
    Location(lat, lon, ZoneOffset(ZoneHours(lon)))
  }

  /** The observer a heatmap cell stands for, in the zone `get_local_timezone` finds as written. */
  function CellLocationAsWritten(lat: real, lon: real): Location {
    Location(lat, lon, ZoneOffsetAsWritten(ZoneHours(lon)))
  }

  /**
   * The two zone rules agree for every cell at or east of 7.5 degrees west
   * (a whole-hour offset of 0 or more); further west the zone as written is
   * UTC and the corrected one is the cell's own offset.
   */
  lemma CellZonesAgreeEast(lat: real, lon: real)
    requires -180.0 <= lon <= 180.0
    ensures ZoneHours(lon) >= 0 ==> CellLocationAsWritten(lat, lon) == CellLocation(lat, lon)
    ensures ZoneHours(lon) < 0 ==>
      CellLocationAsWritten(lat, lon).offset == 0 && CellLocation(lat, lon).offset == ZoneHours(lon) * 3600
  {
    var k := ZoneHours(lon);
    ZoneHoursRange(lon);
    ZoneOffsetCorrect(k);
    if k > 0 {
      AsWrittenEastFound(k);
    } else if k < 0 {
      AsWrittenWestFallsBackToUtc(k);
    }
  }

  // ---------------------------------------------------------------------------
  // Month-length classes

  /** The colour-map keys. */
  const ClassKeys: set<string> := {"29", "30", "29-secondary", "30-secondary", "unknown"}

  /** A month of `days` cycles whose opening dawn has tag `startTag`. */
  function MonthClass(days: int, startTag: Tag): (cls: string)
    ensures cls in ClassKeys
    ensures cls == "unknown" <==> days != 29 && days != 30
    ensures cls == "29" <==> days == 29 && startTag == Astronomical
    ensures cls == "30" <==> days == 30 && startTag == Astronomical
    ensures cls == "29-secondary" <==> days == 29 && startTag != Astronomical
    ensures cls == "30-secondary" <==> days == 30 && startTag != Astronomical
  {
    if days == 29 then (if startTag == Astronomical then "29" else "29-secondary")
    else if days == 30 then (if startTag == Astronomical then "30" else "30-secondary")
    else "unknown"
  }

  /** The class of a 29- or 30-day month is `str(days)`, followed by `-secondary` when the opening dawn is not astronomical. */
  lemma MonthClassSpelling(days: int, startTag: Tag)
    requires days == 29 || days == 30
    ensures MonthClass(days, startTag) == IntToString(days) + (if startTag != Astronomical then "-secondary" else "")
  {
    var d := IntToString(days);
    if days == 29 {
      assert d == NatToString(2) + [DigitChar(9)] == "29";
      assert d + "-secondary" == "29-secondary";
    } else {
      assert d == NatToString(3) + [DigitChar(0)] == "30";
      assert d + "-secondary" == "30-secondary";
    }
  }

  /** `get_days_in_current_month`: the class, and the raw day count it logs (none before the count is made). */
  datatype Classified = Classified(cls: string, days: Option<int>)

  /** `get_days_in_current_month` for the cell at `lat`, `lon`, in the corrected zone of its longitude. */
  function DaysInCurrentMonth(sky: Sky, lat: real, lon: real, fullMoons: seq<Instant>, now: Instant): Classified
    requires WellDated(sky)
  {
    ClassifyMonthAt(sky, CellLocation(lat, lon), fullMoons, now)
  }

  /** East of 7.5 degrees west the classification as written, in the zone it finds, is the corrected one. */
  lemma DaysInCurrentMonthAsWritten(sky: Sky, lat: real, lon: real, fullMoons: seq<Instant>, now: Instant)
    requires WellDated(sky)
    requires -180.0 <= lon <= 180.0
    ensures ZoneHours(lon) >= 0 ==>
      ClassifyMonthAt(sky, CellLocationAsWritten(lat, lon), fullMoons, now) == DaysInCurrentMonth(sky, lat, lon, fullMoons, now)
  {
    CellZonesAgreeEast(lat, lon);
  }

  /** The month classification of `get_days_in_current_month` for an observer `loc`. */
  function ClassifyMonthAt(sky: Sky, loc: Location, fullMoons: seq<Instant>, now: Instant): Classified
    requires WellDated(sky)
  {
    var b := BracketAround(fullMoons, now);
    if b.prev.None? then Classified("unknown", None)
    else
      var start := FirstDawnAfter(sky, loc, b.prev.value, SearchHorizon);
      if start.time.None? || b.next.None? then Classified("unknown", None)
      else
        var end := FirstDawnAfter(sky, loc, b.next.value, SearchHorizon);
        if end.time.None? then Classified("unknown", None)
        else
          var days := DawnCycles(sky, loc, start.time.value, end.time.value);
          Classified(MonthClass(days, start.tag), Some(days))
  }

  /**
   * Every class has a colour; a month is `unknown` when a full moon or a
   * bounding dawn is missing or the count is not 29 or 30, and the logged count
   * is the raw one; `-secondary` marks exactly an opening dawn that is not
   * astronomical, whatever the closing dawn's tag.
   */
  lemma DaysInCurrentMonthMeaning(sky: Sky, lat: real, lon: real, fullMoons: seq<Instant>, now: Instant)
    requires WellDated(sky)
    ensures var c := DaysInCurrentMonth(sky, lat, lon, fullMoons, now);
      var loc := CellLocation(lat, lon);
      var b := BracketAround(fullMoons, now);
      && c.cls in ClassKeys
      && (c.days.Some? <==> (b.prev.Some? && b.next.Some?
            && FirstDawnAfter(sky, loc, b.prev.value, SearchHorizon).time.Some?
            && FirstDawnAfter(sky, loc, b.next.value, SearchHorizon).time.Some?))
      && (c.days.None? ==> c.cls == "unknown")
      && (c.days.Some? ==>
            var start := FirstDawnAfter(sky, loc, b.prev.value, SearchHorizon);
            && c.days.value == DawnCycles(sky, loc, start.time.value, FirstDawnAfter(sky, loc, b.next.value, SearchHorizon).time.value)
            && (c.cls == "unknown" <==> c.days.value != 29 && c.days.value != 30)
            && (c.cls in {"29-secondary", "30-secondary"} <==> (c.days.value in {29, 30} && start.tag != Astronomical)))
  {
  }

  // ---------------------------------------------------------------------------
  // Order of map generation

  function Distance(a: Instant, b: Instant): int {
    if a >= b then a - b else b - a
  }

  /** The loop that finds the full moon nearest to now: the first index of least distance. */
  method ClosestIndex(times: seq<Instant>, now: Instant) returns (idx: Option<nat>)
    ensures idx.Some? <==> |times| > 0
    ensures idx.Some? ==> idx.value < |times|
    ensures idx.Some? ==> forall j :: 0 <= j < |times| ==> Distance(times[idx.value], now) <= Distance(times[j], now)
    ensures idx.Some? ==> forall j :: 0 <= j < idx.value ==> Distance(times[j], now) > Distance(times[idx.value], now)
  {
    idx := None;
    var best := 0;
    for i := 0 to |times|
      invariant idx.None? <==> i == 0
      invariant idx.Some? ==> idx.value < i && best == Distance(times[idx.value], now)
      invariant idx.Some? ==> forall j :: 0 <= j < i ==> best <= Distance(times[j], now)
      invariant idx.Some? ==> forall j :: 0 <= j < idx.value ==> Distance(times[j], now) > best
    {
      var diff := Distance(times[i], now);
      if idx.None? || diff < best {
        best := diff;
        idx := Some(i);
      }
    }
  }

  /** Whether the next step of the alternation finds its side used up. */
  function SideDone(direction: int, forward: int, backward: int, n: nat): nat {
    if (direction == 1 && forward >= n) || (direction != 1 && backward < 0) then 1 else 0
  }

  /** The indices `0..n-1` in increasing order. */
  function Indices(n: nat): (s: seq<nat>)
    ensures |s| == n && forall k :: 0 <= k < n ==> s[k] == k
  {
    seq(n, k requires 0 <= k < n => k)
  }

  /**
   * The processing order of `generate_all_heatmaps`: the current index, then
   * alternately the next unused index after it and before it, continuing on
   * one side once the other is used up; all indices in order when there is no
   * current one.
   */
  method ProcessingOrder(n: nat, current: Option<nat>) returns (order: seq<nat>)
    requires current.Some? ==> current.value < n
    ensures |order| == n
    ensures forall k: int :: k in order <==> 0 <= k < n
    ensures Distinct(order)
    ensures current.Some? ==> order[0] == current.value && Outward(order, current.value)
  {
    if current.None? {
      order := Indices(n);
      forall k: int
        ensures k in order <==> 0 <= k < n
      {
        if 0 <= k < n {
          assert order[k] == k;
        }
      }
      assert Distinct(order);
    } else {
      order := Alternate(n, current.value);
    }
  }

  /** Every entry of `s` lies strictly between `lo` and `hi`. */
  predicate Within(s: seq<nat>, lo: int, hi: int) {
    forall i :: 0 <= i < |s| ==> lo < s[i] < hi
  }

  /** Every index strictly between `lo` and `hi` occurs in `s`. */
  predicate Covered(s: seq<nat>, lo: int, hi: int) {
    forall k :: lo < k < hi ==> k in s
  }

  predicate Distinct<T(==)>(s: seq<T>) {
    forall i, j :: 0 <= i < j < |s| ==> s[i] != s[j]
  }

  /** Entries above `c` appear in increasing order, entries below `c` in decreasing order. */
  predicate Outward(s: seq<nat>, c: nat) {
    && (forall i, j :: 0 <= i < j < |s| && s[i] > c && s[j] > c ==> s[i] < s[j])
    && (forall i, j :: 0 <= i < j < |s| && s[i] < c && s[j] < c ==> s[i] > s[j])
  }

  /** Appending the next index after the covered range keeps the order outward and duplicate-free. */
  lemma AppendForward(s: seq<nat>, c: nat, lo: int, hi: nat)
    requires lo < c < hi && Within(s, lo, hi) && Distinct(s) && Outward(s, c) && Covered(s, lo, hi)
    ensures Within(s + [hi], lo, hi + 1) && Distinct(s + [hi]) && Outward(s + [hi], c) && Covered(s + [hi], lo, hi + 1)
  {
    var t := s + [hi];
    assert forall i :: 0 <= i < |s| ==> t[i] == s[i];
  }

  /** Appending the next index before the covered range keeps the order outward and duplicate-free. */
  lemma AppendBackward(s: seq<nat>, c: nat, lo: nat, hi: int)
    requires lo < c < hi && Within(s, lo, hi) && Distinct(s) && Outward(s, c) && Covered(s, lo, hi)
    ensures Within(s + [lo], lo - 1, hi) && Distinct(s + [lo]) && Outward(s + [lo], c) && Covered(s + [lo], lo - 1, hi)
  {
    var t := s + [lo];
    assert forall i :: 0 <= i < |s| ==> t[i] == s[i];
  }

  /** The alternation loop, from current index `c`. */
  method Alternate(n: nat, c: nat) returns (order: seq<nat>)
    requires c < n
    ensures |order| == n
    ensures forall k: int :: k in order <==> 0 <= k < n
    ensures Distinct(order)
    ensures order[0] == c
    ensures Outward(order, c)
  {
    order := [c];
    var forward := c + 1;
    var backward := c - 1;
    var direction := 1;
    while |order| < n
      invariant -1 <= backward < c < forward <= n
      invariant |order| == forward - backward - 1
      invariant order[0] == c
      invariant Within(order, backward, forward)
      invariant Covered(order, backward, forward)
      invariant Distinct(order) && Outward(order, c)
      invariant direction == 1 || direction == -1
      decreases 2 * (n - |order|) + SideDone(direction, forward, backward, n)
    {
      if direction == 1 && forward < n {
        AppendForward(order, c, backward, forward);
        order := order + [forward];
        forward := forward + 1;
      } else if direction == -1 && backward >= 0 {
        AppendBackward(order, c, backward, forward);
        order := order + [backward];
        backward := backward - 1;
      }
      direction := -direction;
    }
  }

  /** What one pass over the ordered full moons did: maps generated, maps skipped because they existed. */
  datatype Outcome = Outcome(generated: seq<string>, skipped: seq<string>)

  /** The names already on disk, in processing order. */
  function Existing(names: seq<string>, onDisk: set<string>): (r: seq<string>)
    ensures forall x :: x in r <==> x in names && x in onDisk
  {
    if |names| == 0 then []
    else
      var last := names[|names| - 1];
      assert names == names[..|names| - 1] + [last];
      Existing(names[..|names| - 1], onDisk) + (if last in onDisk then [last] else [])
  }

  /** The names not on disk whose drawing succeeds, in processing order. */
  function Fresh(names: seq<string>, onDisk: set<string>, draws: string -> bool): (r: seq<string>)
    ensures forall x :: x in r <==> x in names && x !in onDisk && draws(x)
  {
    if |names| == 0 then []
    else
      var last := names[|names| - 1];
      assert names == names[..|names| - 1] + [last];
      Fresh(names[..|names| - 1], onDisk, draws) + (if last !in onDisk && draws(last) then [last] else [])
  }

  /** The names up to `i + 1` are those up to `i` and then `names[i]`, which (names being distinct) is none of the earlier ones. */
  lemma NextName(names: seq<string>, i: nat)
    requires i < |names|
    ensures names[..i + 1][..i] == names[..i] && names[..i + 1][i] == names[i]
    ensures Distinct(names) ==> names[i] !in names[..i]
  {
    if Distinct(names) {
      forall j | 0 <= j < i
        ensures names[..i][j] != names[i]
      {
        assert names[..i][j] == names[j];
      }
    }
  }

  /**
   * What the generation loop of `generate_all_heatmaps` has done after the
   * names `names`: a name on disk (there before, or generated earlier in the
   * pass) is skipped; otherwise it is generated when its drawing succeeds and
   * is in neither list when it fails.
   */
  function Generation(names: seq<string>, onDisk: set<string>, draws: string -> bool): Outcome
  {
    if |names| == 0 then Outcome([], [])
    else
      var prev := Generation(names[..|names| - 1], onDisk, draws);
      var name := names[|names| - 1];
      if name in onDisk || name in prev.generated then Outcome(prev.generated, prev.skipped + [name])
      else if draws(name) then Outcome(prev.generated + [name], prev.skipped)
      else prev
  }

  /** One more name: the outcome after the first `i + 1` names from the outcome after the first `i`. */
  lemma GenerationStep(names: seq<string>, onDisk: set<string>, draws: string -> bool, i: nat)
    requires i < |names|
    ensures var prev := Generation(names[..i], onDisk, draws);
      var name := names[i];
      Generation(names[..i + 1], onDisk, draws) ==
        if name in onDisk || name in prev.generated then Outcome(prev.generated, prev.skipped + [name])
        else if draws(name) then Outcome(prev.generated + [name], prev.skipped)
        else prev
  {
    NextName(names, i);
  }

  /** Generated names come from the list, were not on disk and drew; none is generated twice; a name on disk is skipped. */
  lemma {:induction false} GeneratedMeaning(names: seq<string>, onDisk: set<string>, draws: string -> bool)
    ensures var out := Generation(names, onDisk, draws);
      && (forall x :: x in out.generated ==> x in names && x !in onDisk && draws(x))
      && Distinct(out.generated)
      && (forall x :: x in names && x !in onDisk && draws(x) ==> x in out.generated)
      && |out.generated| + |out.skipped| <= |names|
    decreases |names|
  {
    if |names| > 0 {
      var front := names[..|names| - 1];
      assert names == front + [names[|names| - 1]];
      GeneratedMeaning(front, onDisk, draws);
    }
  }

  /** A skipped name comes from the list and was on disk or generated earlier in the pass; every listed name on disk is skipped. */
  lemma {:induction false} SkippedMeaning(names: seq<string>, onDisk: set<string>, draws: string -> bool)
    ensures var out := Generation(names, onDisk, draws);
      && (forall x :: x in out.skipped ==> x in names && (x in onDisk || x in out.generated))
      && (forall x :: x in names && x in onDisk ==> x in out.skipped)
    decreases |names|
  {
    if |names| > 0 {
      var front := names[..|names| - 1];
      assert names == front + [names[|names| - 1]];
      SkippedMeaning(front, onDisk, draws);
    }
  }

  /** With distinct names, the generated and skipped lists are the fresh and the existing names, in processing order. */
  lemma {:induction false} GenerationOfDistinct(names: seq<string>, onDisk: set<string>, draws: string -> bool)
    requires Distinct(names)
    ensures Generation(names, onDisk, draws).generated == Fresh(names, onDisk, draws)
    ensures Generation(names, onDisk, draws).skipped == Existing(names, onDisk)
    decreases |names|
  {
    if |names| > 0 {
      var front := names[..|names| - 1];
      var last := names[|names| - 1];
      NextName(names, |names| - 1);
      GenerationOfDistinct(front, onDisk, draws);
      GeneratedMeaning(front, onDisk, draws);
    }
  }

  /**
   * The generation loop of `generate_all_heatmaps` over the file names of the
   * full moons in processing order, with the names already on disk and
   * whether each drawing succeeds as parameters.
   */
  method GenerateAll(names: seq<string>, onDisk: set<string>, draws: string -> bool) returns (out: Outcome)
    ensures out == Generation(names, onDisk, draws)
  {
    var disk := onDisk;
    var generated: seq<string> := [];
    var skipped: seq<string> := [];
    for i := 0 to |names|
      invariant Outcome(generated, skipped) == Generation(names[..i], onDisk, draws)
      invariant forall x :: x in disk <==> x in onDisk || x in generated
    {
      var name := names[i];
      GenerationStep(names, onDisk, draws, i);
      if name in disk {
        skipped := skipped + [name];
      } else if draws(name) {
        generated := generated + [name];
        disk := disk + {name};
      }
    }
    assert names[..|names|] == names;
    out := Outcome(generated, skipped);
  }
}
