/**
 * The offline computation of the new-year anchors
 * (data/new_years_day_calculator.py and data/new_years_day_calculator_2.py):
 * for every year of the full-moon table, the full moon lying closest to a
 * Moon-Spica crossing of that year, with, in the first variant, a cut-off at
 * the year's Sun-Hamal crossing.
 *
 * The three CSV tables are given as sequences: the full moons as instants
 * (their year is the UTC calendar year of the instant), the crossings as rows
 * carrying the year column of their own table.
 */
module NewYear {
  import opened Wrappers
  import opened Instants
  import Tables
  import Sweeps

  /** A row of the Spica-crossing or Sun-Hamal table: its `Year` column and its time. */
  datatype Row = Row(year: int, time: Instant)

  /** The width of the window after a full moon in which the second variant still accepts a crossing: 12 hours. */
  const TwelveHours: int := 12 * 3600

  // ---------------------------------------------------------------- tables

  /** `df[df['Year'] == year]['Time (UTC)'].tolist()`: the times of the rows of `year`, in table order. */
  function TimesOf(rows: seq<Row>, year: int): (r: seq<Instant>)
    ensures forall t :: t in r <==> Row(year, t) in rows
    ensures |r| <= |rows|
  {
    if |rows| == 0 then []
    else
      var rest := TimesOf(rows[1..], year);
      assert forall x :: x in rows <==> x == rows[0] || x in rows[1..];
      if rows[0].year == year then [rows[0].time] + rest else rest
  }

  /** `unique()` on the years of the full moons: each year once, in order of first appearance. */
  function UniqueYears(fullMoons: seq<Instant>): (ys: seq<int>)
    ensures forall i, j :: 0 <= i < j < |ys| ==> ys[i] != ys[j]
  {
    if |fullMoons| == 0 then []
    else
      var p := UniqueYears(fullMoons[..|fullMoons| - 1]);
      var y := YearOf(fullMoons[|fullMoons| - 1]);
      if y in p then p else p + [y]
  }

  /** Exactly the years of the full moons are processed. */
  lemma {:induction false} UniqueYearsMeaning(fullMoons: seq<Instant>)
    ensures forall y :: y in UniqueYears(fullMoons) <==> exists t :: t in fullMoons && YearOf(t) == y
  {
    if |fullMoons| > 0 {
      var p := fullMoons[..|fullMoons| - 1];
      UniqueYearsMeaning(p);
      assert fullMoons == p + [fullMoons[|fullMoons| - 1]];
      assert forall t :: t in fullMoons <==> t in p || t == fullMoons[|fullMoons| - 1];
    }
  }

  // ---------------------------------------------------------------- sorting

  predicate Sorted(s: seq<Instant>) {
    forall i, j :: 0 <= i < j < |s| ==> s[i] <= s[j]
  }

  /** `x` placed before the first element of the sorted `s` that is not smaller. */
  function Insert(x: Instant, s: seq<Instant>): (r: seq<Instant>)
    ensures multiset(r) == multiset(s) + multiset{x}
  {
    if |s| == 0 || x <= s[0] then [x] + s
    else
      assert s == [s[0]] + s[1..];
      [s[0]] + Insert(x, s[1..])
  }

  /** A sorted list stays sorted with a smaller-or-equal head in front. */
  lemma SortedCons(a: Instant, s: seq<Instant>)
    requires Sorted(s) && forall k :: 0 <= k < |s| ==> a <= s[k]
    ensures Sorted([a] + s)
  {
    var r := [a] + s;
    forall i, j | 0 <= i < j < |r|
      ensures r[i] <= r[j]
    {
      assert r[j] == s[j - 1];
      if i > 0 {
        assert r[i] == s[i - 1];
      }
    }
  }

  /** An element of an insertion is the inserted value or an element of the list. */
  lemma InsertMember(x: Instant, s: seq<Instant>, t: Instant)
    requires t in Insert(x, s)
    ensures t == x || t in s
  {
    assert t in multiset(Insert(x, s));
  }

  lemma {:induction false} InsertSorted(x: Instant, s: seq<Instant>)
    requires Sorted(s)
    ensures Sorted(Insert(x, s))
  {
    if |s| == 0 || x <= s[0] {
      SortedCons(x, s);
    } else {
      var rest := Insert(x, s[1..]);
      InsertSorted(x, s[1..]);
      assert Sorted(s[1..]);
      forall k | 0 <= k < |rest|
        ensures s[0] <= rest[k]
      {
        InsertMember(x, s[1..], rest[k]);
        if rest[k] != x {
          var j :| 0 <= j < |s[1..]| && s[1..][j] == rest[k];
          assert s[j + 1] == rest[k];
        }
      }
      SortedCons(s[0], rest);
    }
  }

  /** `sort_values()`: the times in non-decreasing order. */
  function SortTimes(s: seq<Instant>): (r: seq<Instant>)
    ensures multiset(r) == multiset(s)
  {
    if |s| == 0 then []
    else
      assert s == [s[0]] + s[1..];
      Insert(s[0], SortTimes(s[1..]))
  }

  /** The sorted list is a permutation of the input in non-decreasing order. */
  lemma {:induction false} SortTimesSorted(s: seq<Instant>)
    ensures Sorted(SortTimes(s))
    ensures forall t :: t in SortTimes(s) <==> t in s
  {
    if |s| > 0 {
      SortTimesSorted(s[1..]);
      InsertSorted(s[0], SortTimes(s[1..]));
    }
    assert forall t :: t in SortTimes(s) <==> t in multiset(SortTimes(s));
  }

  /** The sorted full moons of `year`. */
  function FullMoonsOf(fullMoons: seq<Instant>, year: int): (fms: seq<Instant>)
  {
    SortTimes(Tables.Filter(fullMoons, t => YearOf(t) == year))
  }

  /** A year's list holds exactly the full moons of that year, sorted. */
  lemma FullMoonsOfMeaning(fullMoons: seq<Instant>, year: int)
    ensures Sorted(FullMoonsOf(fullMoons, year))
    ensures forall t :: t in FullMoonsOf(fullMoons, year) <==> t in fullMoons && YearOf(t) == year
  {
    SortTimesSorted(Tables.Filter(fullMoons, t => YearOf(t) == year));
  }

  /** `list.index(x)`: the first position of `x`. */
  function IndexOf(s: seq<Instant>, x: Instant): (i: nat)
    requires x in s
    ensures i < |s| && s[i] == x
    ensures forall k :: 0 <= k < i ==> s[k] != x
  {
    if s[0] == x then 0 else 1 + IndexOf(s[1..], x)
  }

  /** In a sorted list, a strictly smaller entry comes earlier. */
  lemma SortedBefore(fms: seq<Instant>, i: nat, j: nat)
    requires Sorted(fms) && i < |fms| && j < |fms| && fms[i] < fms[j]
    ensures i < j
  {
  }

  /**
   * In a sorted list, the entry before the first occurrence of `s` is the
   * latest entry strictly earlier than `s`, and it exists exactly when some
   * entry is earlier than `s`.
   */
  lemma PreviousIsLatestEarlier(fms: seq<Instant>, s: Instant)
    requires Sorted(fms) && s in fms
    ensures IndexOf(fms, s) > 0 <==> exists t :: t in fms && t < s
    ensures IndexOf(fms, s) > 0 ==>
      var p := fms[IndexOf(fms, s) - 1];
      p < s && forall t :: t in fms && t < s ==> t <= p
  {
    var idx := IndexOf(fms, s);
    forall t | t in fms && t < s
      ensures idx > 0 && t <= fms[idx - 1]
    {
      var k :| 0 <= k < |fms| && fms[k] == t;
      SortedBefore(fms, k, idx);
      assert fms[k] <= fms[idx - 1];
    }
    if idx > 0 {
      assert fms[idx - 1] <= s && fms[idx - 1] != s;
      assert fms[idx - 1] in fms;
    }
  }

  // ---------------------------------------------------------------- gaps

  /** `max(list)`. */
  function Max(s: seq<Instant>): (m: Instant)
    requires |s| > 0
    ensures m in s && forall t :: t in s ==> t <= m
  {
    if |s| == 1 then s[0]
    else
      var m := Max(s[1..]);
      assert forall t :: t in s ==> t == s[0] || t in s[1..];
      if s[0] >= m then s[0] else m
  }

  /** `abs(fm - c)` in seconds. */
  function Dist(fm: Instant, c: Instant): nat {
    if fm >= c then fm - c else c - fm
  }

  /** `min(relevant, key=lambda c: abs(fm - c))`: the first crossing of least distance. */
  function Closest(fm: Instant, relevant: seq<Instant>): (c: Instant)
    requires |relevant| > 0
    ensures c in relevant && forall t :: t in relevant ==> Dist(fm, c) <= Dist(fm, t)
  {
    if |relevant| == 1 then relevant[0]
    else
      var m := Closest(fm, relevant[1..]);
      assert forall t :: t in relevant ==> t == relevant[0] || t in relevant[1..];
      if Dist(fm, relevant[0]) <= Dist(fm, m) then relevant[0] else m
  }

  /**
   * First variant: the gap from the latest crossing strictly before the full
   * moon, or none when no crossing precedes it.
   */
  function GapBefore(fm: Instant, crossings: seq<Instant>): Option<int> {
    var before := Tables.Filter(crossings, c => c < fm);
    if |before| == 0 then None else Some(fm - Max(before))
  }

  /** A full moon is a candidate exactly when a crossing precedes it; its gap reaches back to the latest such crossing. */
  lemma GapBeforeMeaning(fm: Instant, crossings: seq<Instant>)
    ensures GapBefore(fm, crossings).Some? <==> exists c :: c in crossings && c < fm
    ensures GapBefore(fm, crossings).Some? ==>
      var g := GapBefore(fm, crossings).value;
      && g > 0
      && fm - g in crossings
      && forall c :: c in crossings && c < fm ==> c <= fm - g
  {
  }

  /** The crossings the second variant weighs for `fm`: those before it, then those at most 12 hours after it. */
  function Relevant(fm: Instant, crossings: seq<Instant>): seq<Instant> {
    Tables.Filter(crossings, c => c < fm) + Tables.Filter(crossings, c => c >= fm && c - fm <= TwelveHours)
  }

  /** A crossing is weighed exactly when it is no more than 12 hours after the full moon; later ones are ignored. */
  lemma RelevantMeaning(fm: Instant, crossings: seq<Instant>)
    ensures forall c :: c in Relevant(fm, crossings) <==> c in crossings && c - fm <= TwelveHours
  {
  }

  /** The first variant's gap, as a function of the full moon. */
  function BeforeRule(crossings: seq<Instant>): Instant -> Option<int> {
    fm => GapBefore(fm, crossings)
  }

  /** Second variant: the distance to the nearest weighed crossing, or none when there is none. */
  function GapAround(fm: Instant, crossings: seq<Instant>): Option<int> {
    var relevant := Relevant(fm, crossings);
    if |relevant| == 0 then None else Some(Dist(fm, Closest(fm, relevant)))
  }
  /** The second variant's gap, as a function of the full moon. */
  function AroundRule(crossings: seq<Instant>): Instant -> Option<int> {
    fm => GapAround(fm, crossings)
  }


  /**
   * The second variant's gap: present exactly when some crossing is at most
   * 12 hours after the full moon, and then the least distance to such a
   * crossing.
   */
  lemma GapAroundMeaning(fm: Instant, crossings: seq<Instant>)
    ensures GapAround(fm, crossings).Some? <==> exists c :: c in crossings && c - fm <= TwelveHours
    ensures GapAround(fm, crossings).Some? ==>
      var g := GapAround(fm, crossings).value;
      && (exists c :: c in crossings && c - fm <= TwelveHours && Dist(fm, c) == g)
      && forall c :: c in crossings && c - fm <= TwelveHours ==> g <= Dist(fm, c)
  {
    RelevantMeaning(fm, crossings);
  }

  // ---------------------------------------------------------------- selection

  /** The gap of every full moon, in list order. */
  function Gaps(fms: seq<Instant>, gap: Instant -> Option<int>): (r: seq<Option<int>>)
    ensures |r| == |fms| && forall k :: 0 <= k < |fms| ==> r[k] == gap(fms[k])
  {
    seq(|fms|, k requires 0 <= k < |fms| => gap(fms[k]))
  }

  /** The position the scan settles on: a gap replaces the best only when strictly smaller. */
  function SelectedBy(fms: seq<Instant>, gap: Instant -> Option<int>): (i: Option<nat>)
    ensures i.Some? ==> i.value < |fms|
  {
    Sweeps.Earliest(Gaps(fms, gap))
  }

  /** The full moon the scan settles on, if any. */
  function Selection(fms: seq<Instant>, gap: Instant -> Option<int>): (s: Option<Instant>)
    ensures s.Some? ==> s.value in fms
  {
    var i := SelectedBy(fms, gap);
    if i.Some? then Some(fms[i.value]) else None
  }

  /**
   * Nothing is selected exactly when no full moon has a gap; otherwise the
   * selected one has the least gap, every earlier one a strictly larger gap,
   * and, the list being sorted, it is the earliest full moon of least gap.
   */
  lemma SelectionMeaning(fms: seq<Instant>, gap: Instant -> Option<int>)
    ensures SelectedBy(fms, gap).None? <==> forall k :: 0 <= k < |fms| ==> gap(fms[k]).None?
    ensures SelectedBy(fms, gap).Some? ==>
      var i := SelectedBy(fms, gap).value;
      && gap(fms[i]).Some?
      && (forall k :: 0 <= k < |fms| && gap(fms[k]).Some? ==> gap(fms[i]).value <= gap(fms[k]).value)
      && (forall k :: 0 <= k < i && gap(fms[k]).Some? ==> gap(fms[i]).value < gap(fms[k]).value)
      && (Sorted(fms) ==> forall k :: 0 <= k < |fms| && gap(fms[k]) == gap(fms[i]) ==> fms[i] <= fms[k])
  {
    var g := Gaps(fms, gap);
    Sweeps.EarliestMeaning(g);
    assert Sweeps.NoneFound(g) <==> forall k :: 0 <= k < |fms| ==> gap(fms[k]).None?;
    if SelectedBy(fms, gap).Some? {
      var i := SelectedBy(fms, gap).value;
      assert Sweeps.FirstEarliest(g, i);
      if Sorted(fms) {
        forall k | 0 <= k < |fms| && gap(fms[k]) == gap(fms[i])
          ensures fms[i] <= fms[k]
        {
          assert k >= i;
        }
      }
    }
  }

  /**
   * The scan over the sorted full moons of a year: `min_diff` and
   * `selected_fm` replaced whenever a gap is strictly smaller than the best
   * so far.
   */
  method SelectByGap(fms: seq<Instant>, gap: Instant -> Option<int>) returns (selected: Option<Instant>)
    ensures selected == Selection(fms, gap)
  {
    var minDiff: Option<int> := None;
    selected := None;
    for i := 0 to |fms|
      invariant var b := Sweeps.Earliest(Gaps(fms[..i], gap));
        && (b.None? <==> selected.None?)
        && (b.None? <==> minDiff.None?)
        && (b.Some? ==> b.value < i && selected == Some(fms[b.value]) && minDiff == gap(fms[b.value]))
    {
      var diff := gap(fms[i]);
      ghost var before := Gaps(fms[..i], gap);
      assert Gaps(fms[..i + 1], gap) == before + [diff];
      Sweeps.EarliestAppend(before, diff);
      if diff.Some? && (minDiff.None? || diff.value < minDiff.value) {
        minDiff := diff;
        selected := Some(fms[i]);
      }
    }
    assert fms[..|fms|] == fms;
  }

  // ---------------------------------------------------------------- first variant

  /** `sun_hamal[0] if sun_hamal else None`: only the first Sun-Hamal row of the year counts. */
  function FirstOf(times: seq<Instant>): Option<Instant> {
    if |times| > 0 then Some(times[0]) else None
  }

  /**
   * The first variant for one year: the selection by gap from the latest
   * preceding crossing; if it is not before the Sun-Hamal crossing, the
   * previous full moon of the year (when there is one); kept only when then
   * before the Sun-Hamal crossing, or when the year has none.
   */
  function AnchorWithHamal(fms: seq<Instant>, crossings: seq<Instant>, hamalTimes: seq<Instant>): (a: Option<Instant>)
    ensures a.Some? ==> a.value in fms
  {
    HamalCutoff(fms, Selection(fms, BeforeRule(crossings)), FirstOf(hamalTimes))
  }

  /** Step 7 of the first variant: the selection `sel` checked against the Sun-Hamal crossing `hamal`. */
  function HamalCutoff(fms: seq<Instant>, sel: Option<Instant>, hamal: Option<Instant>): (a: Option<Instant>)
    requires sel.Some? ==> sel.value in fms
    ensures a.Some? ==> a.value in fms
  {
    if sel.None? then None
    else
      var s := sel.value;
      var idx := IndexOf(fms, s);
      var moved := if hamal.Some? && s >= hamal.value && idx > 0 then fms[idx - 1] else s;
      if hamal.None? || moved < hamal.value then Some(moved) else None
  }

  /** `p` is the latest full moon of the list strictly before `s`. */
  predicate LatestBefore(fms: seq<Instant>, s: Instant, p: Instant) {
    p in fms && p < s && forall t :: t in fms && t < s ==> t <= p
  }

  /**
   * An anchor is always before the year's Sun-Hamal crossing when there is
   * one; a selection before it is kept; a selection at or after it gives way
   * to the latest earlier full moon of the year, and the year yields an
   * anchor exactly when that one exists and is before the crossing; without
   * a crossing the selection is kept.
   */
  lemma AnchorWithHamalMeaning(fms: seq<Instant>, crossings: seq<Instant>, hamalTimes: seq<Instant>)
    requires Sorted(fms)
    ensures var a := AnchorWithHamal(fms, crossings, hamalTimes);
      var sel := Selection(fms, BeforeRule(crossings));
      && (a.Some? && |hamalTimes| > 0 ==> a.value < hamalTimes[0])
      && (sel.None? ==> a.None?)
      && (sel.Some? && |hamalTimes| == 0 ==> a == sel)
      && (sel.Some? && |hamalTimes| > 0 && sel.value < hamalTimes[0] ==> a == sel)
      && (sel.Some? && |hamalTimes| > 0 && sel.value >= hamalTimes[0] ==>
           (a.Some? <==> exists p :: LatestBefore(fms, sel.value, p) && p < hamalTimes[0])
           && (a.Some? ==> LatestBefore(fms, sel.value, a.value)))
  {
    HamalCutoffMeaning(fms, Selection(fms, BeforeRule(crossings)), FirstOf(hamalTimes));
  }

  /** Two latest-before entries are the same entry. */
  lemma LatestBeforeUnique(fms: seq<Instant>, s: Instant, p: Instant, q: Instant)
    requires LatestBefore(fms, s, p) && LatestBefore(fms, s, q)
    ensures p == q
  {
  }

  /** The cut-off for any selection `sel` from the sorted list and any crossing `hamal`. */
  lemma HamalCutoffMeaning(fms: seq<Instant>, sel: Option<Instant>, hamal: Option<Instant>)
    requires Sorted(fms) && (sel.Some? ==> sel.value in fms)
    ensures var a := HamalCutoff(fms, sel, hamal);
      && (a.Some? && hamal.Some? ==> a.value < hamal.value)
      && (sel.None? ==> a.None?)
      && (sel.Some? && hamal.None? ==> a == sel)
      && (sel.Some? && hamal.Some? && sel.value < hamal.value ==> a == sel)
      && (sel.Some? && hamal.Some? && sel.value >= hamal.value ==>
           (a.Some? <==> exists p :: LatestBefore(fms, sel.value, p) && p < hamal.value)
           && (a.Some? ==> LatestBefore(fms, sel.value, a.value)))
  {
    if sel.Some? && hamal.Some? && sel.value >= hamal.value {
      var s := sel.value;
      PreviousIsLatestEarlier(fms, s);
      var idx := IndexOf(fms, s);
      if idx > 0 {
        var prev := fms[idx - 1];
        assert prev in fms;
        assert LatestBefore(fms, s, prev);
        forall p | LatestBefore(fms, s, p)
          ensures p == prev
        {
          LatestBeforeUnique(fms, s, p, prev);
        }
      }
    }
  }

  /** Later Sun-Hamal rows of the year make no difference. */
  lemma OnlyFirstHamalCounts(fms: seq<Instant>, crossings: seq<Instant>, hamalTimes: seq<Instant>)
    requires |hamalTimes| > 0
    ensures AnchorWithHamal(fms, crossings, hamalTimes) == AnchorWithHamal(fms, crossings, hamalTimes[..1])
  {
  }

  /** The per-year body of the first variant. */
  method SelectAnchorWithHamal(fms: seq<Instant>, crossings: seq<Instant>, hamalTimes: seq<Instant>)
    returns (anchor: Option<Instant>)
    ensures anchor == AnchorWithHamal(fms, crossings, hamalTimes)
  {
    var selected := SelectByGap(fms, BeforeRule(crossings));
    var hamal := FirstOf(hamalTimes);
    anchor := None;
    if selected.Some? {
      var s := selected.value;
      if hamal.Some? && s >= hamal.value {
        var idx := IndexOf(fms, s);
        if idx > 0 {
          s := fms[idx - 1];
        }
      }
      if hamal.Some? && s < hamal.value {
        anchor := Some(s);
      } else if hamal.None? {
        anchor := Some(s);
      }
    }
    assert anchor == HamalCutoff(fms, selected, hamal);
  }

  /** The first variant's anchor for `year`. */
  function YearAnchorWithHamal(fullMoons: seq<Instant>, crossings: seq<Row>, sunHamal: seq<Row>, year: int): Option<Instant> {
    AnchorWithHamal(FullMoonsOf(fullMoons, year), TimesOf(crossings, year), TimesOf(sunHamal, year))
  }

  /** The first variant's outcome for each year, in the order the years are processed. */
  function PerYearWithHamal(fullMoons: seq<Instant>, crossings: seq<Row>, sunHamal: seq<Row>): (r: seq<Option<Instant>>)
    ensures |r| == |UniqueYears(fullMoons)|
  {
    var ys := UniqueYears(fullMoons);
    seq(|ys|, k requires 0 <= k < |ys| => YearAnchorWithHamal(fullMoons, crossings, sunHamal, ys[k]))
  }

  /** `selected_full_moons` of the first variant, written to `new_years_day.csv`. */
  method NewYearsDays(fullMoons: seq<Instant>, crossings: seq<Row>, sunHamal: seq<Row>) returns (anchors: seq<Instant>)
    ensures anchors == Somes(PerYearWithHamal(fullMoons, crossings, sunHamal))
  {
    var years := UniqueYears(fullMoons);
    ghost var per := PerYearWithHamal(fullMoons, crossings, sunHamal);
    anchors := [];
    for k := 0 to |years|
      invariant anchors == Somes(per[..k])
    {
      var anchor := SelectAnchorWithHamal(FullMoonsOf(fullMoons, years[k]), TimesOf(crossings, years[k]), TimesOf(sunHamal, years[k]));
      assert per[k] == anchor;
      SomesPrefix(per, k);
      if anchor.Some? {
        anchors := anchors + [anchor.value];
      }
    }
    assert per[..|years|] == per;
  }

  // ---------------------------------------------------------------- second variant

  /** The second variant for one year: the selection by distance to the nearest weighed crossing, with no cut-off. */
  function AnchorAround(fms: seq<Instant>, crossings: seq<Instant>): (a: Option<Instant>)
    ensures a.Some? ==> a.value in fms
  {
    Selection(fms, AroundRule(crossings))
  }

  /** A year yields an anchor exactly when one of its full moons has a crossing of the year at most 12 hours after it. */
  lemma AnchorAroundExists(fms: seq<Instant>, crossings: seq<Instant>)
    ensures AnchorAround(fms, crossings).Some? <==>
      exists fm, c :: fm in fms && c in crossings && c - fm <= TwelveHours
  {
    var gap := AroundRule(crossings);
    SelectionMeaning(fms, gap);
    if AnchorAround(fms, crossings).None? {
      forall fm, c | fm in fms && c in crossings
        ensures c - fm > TwelveHours
      {
        GapAroundMeaning(fm, crossings);
      }
    } else {
      var i := SelectedBy(fms, gap).value;
      GapAroundMeaning(fms[i], crossings);
    }
  }

  /** The per-year body of the second variant. */
  method SelectAnchorAround(fms: seq<Instant>, crossings: seq<Instant>) returns (anchor: Option<Instant>)
    ensures anchor == AnchorAround(fms, crossings)
  {
    anchor := SelectByGap(fms, AroundRule(crossings));
  }

  /** The second variant's anchor for `year`. */
  function YearAnchorAround(fullMoons: seq<Instant>, crossings: seq<Row>, year: int): Option<Instant> {
    AnchorAround(FullMoonsOf(fullMoons, year), TimesOf(crossings, year))
  }

  /** The second variant's outcome for each year, in the order the years are processed. */
  function PerYearAround(fullMoons: seq<Instant>, crossings: seq<Row>): (r: seq<Option<Instant>>)
    ensures |r| == |UniqueYears(fullMoons)|
  {
    var ys := UniqueYears(fullMoons);
    seq(|ys|, k requires 0 <= k < |ys| => YearAnchorAround(fullMoons, crossings, ys[k]))
  }

  /** `selected_full_moons` of the second variant, written to `new_years_day_2.csv`. */
  method NewYearsDaysAround(fullMoons: seq<Instant>, crossings: seq<Row>) returns (anchors: seq<Instant>)
    ensures anchors == Somes(PerYearAround(fullMoons, crossings))
  {
    var years := UniqueYears(fullMoons);
    ghost var per := PerYearAround(fullMoons, crossings);
    anchors := [];
    for k := 0 to |years|
      invariant anchors == Somes(per[..k])
    {
      var anchor := SelectAnchorAround(FullMoonsOf(fullMoons, years[k]), TimesOf(crossings, years[k]));
      assert per[k] == anchor;
      SomesPrefix(per, k);
      if anchor.Some? {
        anchors := anchors + [anchor.value];
      }
    }
    assert per[..|years|] == per;
  }

  // ---------------------------------------------------------------- one anchor per year

  /** Outcomes, one per year, each anchor lying in its own year. */
  predicate InOwnYears(ys: seq<int>, per: seq<Option<Instant>>) {
    && |per| == |ys|
    && forall k :: 0 <= k < |per| && per[k].Some? ==> YearOf(per[k].value) == ys[k]
  }

  /** With distinct years and each anchor in its own year, no two anchors share a year. */
  lemma {:induction false} DistinctAnchorYears(ys: seq<int>, per: seq<Option<Instant>>)
    requires InOwnYears(ys, per)
    requires forall i, j :: 0 <= i < j < |ys| ==> ys[i] != ys[j]
    ensures forall a :: a in Somes(per) ==> YearOf(a) in ys
    ensures forall i, j :: 0 <= i < j < |Somes(per)| ==> YearOf(Somes(per)[i]) != YearOf(Somes(per)[j])
  {
    if |per| > 0 {
      var n := |per| - 1;
      var p, q := per[..n], ys[..n];
      assert InOwnYears(q, p);
      DistinctAnchorYears(q, p);
      assert per == p + [per[n]];
      SomesAppend(p, per[n]);
      forall a | a in Somes(p)
        ensures YearOf(a) in q && YearOf(a) != ys[n]
      {
        var k :| 0 <= k < |q| && q[k] == YearOf(a);
        assert ys[k] == q[k];
      }
    }
  }

  /** The first variant emits at most one anchor per year, each a full moon of that year before its Sun-Hamal crossing. */
  lemma AtMostOneAnchorPerYearWithHamal(fullMoons: seq<Instant>, crossings: seq<Row>, sunHamal: seq<Row>)
    ensures var anchors := Somes(PerYearWithHamal(fullMoons, crossings, sunHamal));
      && |anchors| <= |UniqueYears(fullMoons)|
      && (forall a :: a in anchors ==> a in fullMoons)
      && (forall i, j :: 0 <= i < j < |anchors| ==> YearOf(anchors[i]) != YearOf(anchors[j]))
  {
    var ys := UniqueYears(fullMoons);
    var per := PerYearWithHamal(fullMoons, crossings, sunHamal);
    forall k | 0 <= k < |per| && per[k].Some?
      ensures YearOf(per[k].value) == ys[k] && per[k].value in fullMoons
    {
      FullMoonsOfMeaning(fullMoons, ys[k]);
    }
    DistinctAnchorYears(ys, per);
    SomesMeaning(per);
  }

  /** The second variant emits at most one anchor per year, each a full moon of that year. */
  lemma AtMostOneAnchorPerYearAround(fullMoons: seq<Instant>, crossings: seq<Row>)
    ensures var anchors := Somes(PerYearAround(fullMoons, crossings));
      && |anchors| <= |UniqueYears(fullMoons)|
      && (forall a :: a in anchors ==> a in fullMoons)
      && (forall i, j :: 0 <= i < j < |anchors| ==> YearOf(anchors[i]) != YearOf(anchors[j]))
  {
    var ys := UniqueYears(fullMoons);
    var per := PerYearAround(fullMoons, crossings);
    forall k | 0 <= k < |per| && per[k].Some?
      ensures YearOf(per[k].value) == ys[k] && per[k].value in fullMoons
    {
      FullMoonsOfMeaning(fullMoons, ys[k]);
    }
    DistinctAnchorYears(ys, per);
    SomesMeaning(per);
  }
}
