/**
 * The precomputed tables: full-moon instants and new-year anchor instants,
 * and the bracket and range queries the calendar makes on them
 * (backend/astronomy/moon.py, year.py and the two heatmap scripts).
 */
module Tables {
  import opened Wrappers
  import opened Instants

  predicate StrictlyIncreasing(s: seq<Instant>) {
    forall i, j :: 0 <= i < j < |s| ==> s[i] < s[j]
  }

  /** The latest table instant at or before `now` (pandas' max over an empty selection is missing). */
  function LatestAtOrBefore(times: seq<Instant>, now: Instant): (r: Option<Instant>)
    ensures r.Some? ==> r.value in times && r.value <= now
    ensures r.Some? ==> forall t :: t in times && t <= now ==> t <= r.value
    ensures r.None? <==> forall t :: t in times ==> t > now
  {
    if |times| == 0 then None
    else
      assert forall t :: t in times <==> t == times[0] || t in times[1..];
      var rest := LatestAtOrBefore(times[1..], now);
      var t := times[0];
      if t > now then rest
      else if rest.Some? && rest.value >= t then rest
      else Some(t)
  }

  /** The earliest table instant strictly after `now`. */
  function EarliestAfter(times: seq<Instant>, now: Instant): (r: Option<Instant>)
    ensures r.Some? ==> r.value in times && r.value > now
    ensures r.Some? ==> forall t :: t in times && t > now ==> r.value <= t
    ensures r.None? <==> forall t :: t in times ==> t <= now
  {
    if |times| == 0 then None
    else
      assert forall t :: t in times <==> t == times[0] || t in times[1..];
      var rest := EarliestAfter(times[1..], now);
      var t := times[0];
      if t <= now then rest
      else if rest.Some? && rest.value <= t then rest
      else Some(t)
  }

  /** The previous and next table instants around `now`; either may be missing. */
  datatype Bracket = Bracket(prev: Option<Instant>, next: Option<Instant>)

  /** `find_prev_next_full_moon` / `find_prev_next_new_year`: the instants bracketing `now`. */
  function BracketAround(times: seq<Instant>, now: Instant): (b: Bracket)
    ensures b.prev.Some? ==> b.prev.value <= now
    ensures b.next.Some? ==> now < b.next.value
    ensures b.prev.Some? && b.next.Some? ==>
      forall t :: t in times ==> t <= b.prev.value || b.next.value <= t
  {
    Bracket(LatestAtOrBefore(times, now), EarliestAfter(times, now))
  }

  /** In a strictly increasing table a full bracket is two neighbouring entries. */
  lemma BracketIsAdjacent(times: seq<Instant>, now: Instant)
    requires StrictlyIncreasing(times)
    requires BracketAround(times, now).prev.Some? && BracketAround(times, now).next.Some?
    ensures exists i :: (0 <= i < |times| - 1
      && times[i] == BracketAround(times, now).prev.value
      && times[i + 1] == BracketAround(times, now).next.value)
  {
    var b := BracketAround(times, now);
    var i :| 0 <= i < |times| && times[i] == b.prev.value;
    var k :| 0 <= k < |times| && times[k] == b.next.value;
    assert i < k;
    assert times[i + 1] in times;
    assert k == i + 1;
  }

  /** The table entries that satisfy `keep`, in table order (a list comprehension with a filter). */
  function Filter(times: seq<Instant>, keep: Instant -> bool): (r: seq<Instant>)
    ensures forall t :: t in r <==> t in times && keep(t)
    ensures |r| <= |times|
    ensures StrictlyIncreasing(times) ==> StrictlyIncreasing(r)
  {
    if |times| == 0 then []
    else
      var rest := Filter(times[1..], keep);
      assert forall t :: t in times <==> t == times[0] || t in times[1..];
      if keep(times[0]) then
        assert StrictlyIncreasing(times) ==> forall t :: t in rest ==> times[0] < t by {
          if StrictlyIncreasing(times) {
            forall t | t in rest
              ensures times[0] < t
            {
              var j :| 0 <= j < |times[1..]| && times[1..][j] == t;
              assert times[j + 1] == t;
            }
          }
        }
        PrependIncreasing(times[0], rest);
        [times[0]] + rest
      else rest
  }

  /** `get_full_moons_in_range`: the table entries in `[start, end)`, in table order. */
  function InRange(times: seq<Instant>, start: Instant, end: Instant): (r: seq<Instant>)
    ensures forall t :: t in r <==> t in times && start <= t < end
    ensures |r| <= |times|
    ensures StrictlyIncreasing(times) ==> StrictlyIncreasing(r)
  {
    Filter(times, t => start <= t < end)
  }

  lemma PrependIncreasing(x: Instant, s: seq<Instant>)
    ensures StrictlyIncreasing(s) && (forall t :: t in s ==> x < t) ==> StrictlyIncreasing([x] + s)
  {
    if StrictlyIncreasing(s) && (forall t :: t in s ==> x < t) {
      forall i, j | 0 <= i < j < |[x] + s|
        ensures ([x] + s)[i] < ([x] + s)[j]
      {
        assert ([x] + s)[j] == s[j - 1];
        assert s[j - 1] in s;
        if i > 0 {
          assert ([x] + s)[i] == s[i - 1];
        }
      }
    }
  }

  /**
   * The module-level `full_moon_times` of moon.py and year.py: the table is
   * loaded on the first call and kept for every later one. Each call then
   * parses the kept rows again; parsing being a function of the rows, the
   * cache holds the parsed instants directly.
   */
  class FullMoonCache {
    var parsed: Option<seq<Instant>>

    constructor ()
      ensures parsed == None
    {
      parsed := None;
    }

    /** `source` is what loading and parsing the CSV would yield on this call. */
    method Load(source: seq<Instant>) returns (times: seq<Instant>)
      modifies this
      ensures times == (if old(parsed).Some? then old(parsed).value else source)
      ensures parsed == Some(times)
    {
      if parsed.None? {
        parsed := Some(source);
      }
      times := parsed.value;
    }
  }

  /** Once loaded, later loads return the first table whatever the source says. */
  method LoadTwice(source1: seq<Instant>, source2: seq<Instant>) returns (first: seq<Instant>, second: seq<Instant>)
    ensures first == source1 && second == source1
  {
    var cache := new FullMoonCache();
    first := cache.Load(source1);
    second := cache.Load(source2);
  }
}
