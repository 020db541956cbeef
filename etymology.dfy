/**
 * The etymology chain (backend/etymology_api.py): starting from a Strong's
 * number, follow each entry's first usable source reference back towards
 * a primitive root, for at most `max_depth` steps.
 *
 * The lookup of a number (an HTTP request to the Strong's data service) is
 * the map `db`: a number outside it is a failed or empty lookup. Python's
 * `int()` on a string is the parameter `intOf` (`None` where it raises).
 */
module Etymology {
  import opened Wrappers
  import opened Text

  /** One etymology reference; only its `src` matters to the walk. */
  datatype Reference = Reference(src: Option<string>)

  /** A chain entry, with the fields the walk and the handler look at. */
  datatype Entry = Entry(strongsNumber: Option<string>, word: Option<string>, etymologyType: Option<string>, references: seq<Reference>)

  /** The walk stops after an entry of this type. */
  predicate IsPrimitive(e: Entry) {
    e.etymologyType == Some("primitive")
  }

  /** `if ref.get('src')` and `int(ref['src'])` succeeds. */
  predicate Usable(r: Reference, intOf: string -> Option<int>) {
    r.src.Some? && r.src.value != "" && intOf(r.src.value).Some?
  }

  /** `refs[k]` is the first usable reference from index `i` on. */
  predicate FirstUsableAt(refs: seq<Reference>, intOf: string -> Option<int>, i: nat, k: int) {
    i <= k < |refs| && Usable(refs[k], intOf) && forall j :: i <= j < k ==> !Usable(refs[j], intOf)
  }

  /** The number of the first usable reference from index `i` on. */
  function FirstUsable(refs: seq<Reference>, intOf: string -> Option<int>, i: nat): Option<int>
    requires i <= |refs|
    decreases |refs| - i
  {
    if i == |refs| then None
    else if Usable(refs[i], intOf) then Some(intOf(refs[i].src.value).value)
    else FirstUsable(refs, intOf, i + 1)
  }

  /** `FirstUsable` finds a number exactly when some reference is usable, and then it is the first usable one's. */
  lemma {:induction false} FirstUsableMeaning(refs: seq<Reference>, intOf: string -> Option<int>, i: nat)
    requires i <= |refs|
    ensures var r := FirstUsable(refs, intOf, i);
      && (r.Some? <==> exists k :: i <= k < |refs| && Usable(refs[k], intOf))
      && (r.Some? ==> exists k :: FirstUsableAt(refs, intOf, i, k) && r.value == intOf(refs[k].src.value).value)
    decreases |refs| - i
  {
    if i < |refs| {
      if Usable(refs[i], intOf) {
        assert FirstUsableAt(refs, intOf, i, i);
      } else {
        FirstUsableMeaning(refs, intOf, i + 1);
        var r := FirstUsable(refs, intOf, i);
        if r.Some? {
          var k :| FirstUsableAt(refs, intOf, i + 1, k) && r.value == intOf(refs[k].src.value).value;
          assert FirstUsableAt(refs, intOf, i, k);
        }
      }
    }
  }

  /** The next number of the walk after `e`: its first usable reference's. */
  function NextNumber(e: Entry, intOf: string -> Option<int>): Option<int> {
    FirstUsable(e.references, intOf, 0)
  }

  /** The `for ref in references` loop: the first `src` that `int()` accepts. */
  method FindNextNumber(e: Entry, intOf: string -> Option<int>) returns (next: Option<int>)
    ensures next == NextNumber(e, intOf)
  {
    next := None;
    var refs := e.references;
    for k := 0 to |refs|
      invariant FirstUsable(refs, intOf, 0) == FirstUsable(refs, intOf, k)
    {
      var r := refs[k];
      if r.src.Some? && r.src.value != "" {
        var n := intOf(r.src.value);
        if n.Some? {
          next := n;
          return;
        }
      }
    }
  }

  /**
   * The chain from number `current` with `steps` steps left: empty when the
   * number is 0, no steps are left or the lookup fails; otherwise the entry,
   * followed (unless it is primitive or has no non-zero next number) by the
   * chain from its next number with one step fewer.
   */
  function ChainFrom(db: map<int, Entry>, intOf: string -> Option<int>, current: int, steps: int): (chain: seq<Entry>)
    ensures |chain| <= if steps < 0 then 0 else steps
    ensures chain == [] <==> current == 0 || steps <= 0 || current !in db
    decreases steps
  {
    if current == 0 || steps <= 0 || current !in db then []
    else
      var e := db[current];
      var next := NextNumber(e, intOf);
      if IsPrimitive(e) || next.None? || next.value == 0 then [e]
      else [e] + ChainFrom(db, intOf, next.value, steps - 1)
  }

  /** `build_etymology_chain(start_num, max_depth)`. */
  method BuildEtymologyChain(db: map<int, Entry>, intOf: string -> Option<int>, start: int, maxDepth: int)
    returns (chain: seq<Entry>)
    ensures chain == ChainFrom(db, intOf, start, maxDepth)
  {
    chain := [];
    var current := start;
    var depth := 0;
    var done := false;
    while !done && current != 0 && depth < maxDepth
      invariant 0 <= depth
      invariant !done ==> chain + ChainFrom(db, intOf, current, maxDepth - depth) == ChainFrom(db, intOf, start, maxDepth)
      invariant done ==> chain == ChainFrom(db, intOf, start, maxDepth)
      decreases maxDepth - depth, if done then 0 else 1
    {
      if current !in db {
        done := true;
        continue;
      }
      var entry := db[current];
      ghost var rest := ChainFrom(db, intOf, current, maxDepth - depth);
      chain := chain + [entry];
      if IsPrimitive(entry) {
        done := true;
        continue;
      }
      var next := FindNextNumber(entry, intOf);
      if next.None? || next.value == 0 {
        done := true;
        continue;
      }
      assert rest == [entry] + ChainFrom(db, intOf, next.value, maxDepth - depth - 1);
      current := next.value;
      depth := depth + 1;
    }
  }

  /** The numbers looked up along the chain from `current`, in the same order. */
  function NumbersFrom(db: map<int, Entry>, intOf: string -> Option<int>, current: int, steps: int): (nums: seq<int>)
    ensures |nums| == |ChainFrom(db, intOf, current, steps)|
    ensures |nums| > 0 ==> nums[0] == current
    decreases steps
  {
    if current == 0 || steps <= 0 || current !in db then []
    else
      var e := db[current];
      var next := NextNumber(e, intOf);
      if IsPrimitive(e) || next.None? || next.value == 0 then [current]
      else [current] + NumbersFrom(db, intOf, next.value, steps - 1)
  }

  /**
   * `nums[i]` is the number of `chain[i]`: non-zero and found in `db`; each
   * entry before the last is not primitive and its next number is the
   * following entry's.
   */
  predicate Links(db: map<int, Entry>, intOf: string -> Option<int>, chain: seq<Entry>, nums: seq<int>) {
    && |nums| == |chain|
    && (forall i :: 0 <= i < |chain| ==> nums[i] != 0 && nums[i] in db && db[nums[i]] == chain[i])
    && (forall i :: 0 <= i < |chain| - 1 ==> !IsPrimitive(chain[i]) && NextNumber(chain[i], intOf) == Some(nums[i + 1]))
  }

  /** Entry `i` of the chain and its link to entry `i + 1`. */
  lemma {:induction false} ChainLinkAt(db: map<int, Entry>, intOf: string -> Option<int>, start: int, steps: int, i: nat)
    requires i < |ChainFrom(db, intOf, start, steps)|
    ensures var chain, nums := ChainFrom(db, intOf, start, steps), NumbersFrom(db, intOf, start, steps);
      && nums[i] != 0 && nums[i] in db && db[nums[i]] == chain[i]
      && (i + 1 < |chain| ==> !IsPrimitive(chain[i]) && NextNumber(chain[i], intOf) == Some(nums[i + 1]))
    decreases i
  {
    var e := db[start];
    var next := NextNumber(e, intOf);
    if !(IsPrimitive(e) || next.None? || next.value == 0) {
      var tail, tnums := ChainFrom(db, intOf, next.value, steps - 1), NumbersFrom(db, intOf, next.value, steps - 1);
      if i > 0 {
        ChainLinkAt(db, intOf, next.value, steps - 1, i - 1);
      } else if |tail| > 0 {
        assert tnums[0] == next.value;
      }
    }
  }

  /** The chain from `start` is a walk along next numbers, starting at `start`'s entry. */
  lemma ChainLinks(db: map<int, Entry>, intOf: string -> Option<int>, start: int, steps: int)
    ensures var chain, nums := ChainFrom(db, intOf, start, steps), NumbersFrom(db, intOf, start, steps);
      Links(db, intOf, chain, nums) && (|chain| > 0 ==> nums[0] == start)
  {
    var chain, nums := ChainFrom(db, intOf, start, steps), NumbersFrom(db, intOf, start, steps);
    forall i | 0 <= i < |chain|
      ensures nums[i] != 0 && nums[i] in db && db[nums[i]] == chain[i]
    {
      ChainLinkAt(db, intOf, start, steps, i);
    }
    forall i | 0 <= i < |chain| - 1
      ensures !IsPrimitive(chain[i]) && NextNumber(chain[i], intOf) == Some(nums[i + 1])
    {
      ChainLinkAt(db, intOf, start, steps, i);
    }
  }

  /**
   * The walk stops only for a reason: its last entry is primitive, has no
   * non-zero next number or one whose lookup fails, or the steps ran out.
   */
  lemma {:induction false} ChainStops(db: map<int, Entry>, intOf: string -> Option<int>, start: int, steps: int)
    ensures var chain := ChainFrom(db, intOf, start, steps);
      |chain| > 0 ==>
        var last := chain[|chain| - 1];
        var next := NextNumber(last, intOf);
        IsPrimitive(last) || next.None? || next.value == 0 || next.value !in db || |chain| == steps
    decreases steps
  {
    if start != 0 && steps > 0 && start in db {
      var e := db[start];
      var next := NextNumber(e, intOf);
      if !(IsPrimitive(e) || next.None? || next.value == 0) {
        ChainStops(db, intOf, next.value, steps - 1);
        var chain, tail := ChainFrom(db, intOf, start, steps), ChainFrom(db, intOf, next.value, steps - 1);
        assert chain == [e] + tail;
        if |tail| > 0 {
          assert chain[|chain| - 1] == tail[|tail| - 1];
        }
      }
    }
  }

  // ---------------------------------------------------------------------------
  // The handler

  /** What `etymology_chain_handler` answers. */
  datatype Answer =
    | MissingStrongs
    | InvalidStrongs
    | NoData(startingWord: string)
    | Found(startingWord: string, chainLength: nat, reachedPrimitive: bool, chain: seq<Entry>)

  /** The status code of an answer. */
  function Status(a: Answer): int {
    match a
    case MissingStrongs => 400
    case InvalidStrongs => 400
    case NoData(_) => 404
    case Found(_, _, _, _) => 200
  }

  /** The `strongs` text without one leading `H`. */
  function WithoutH(s: string): (r: string)
    ensures |s| > 0 && s[0] == 'H' ==> s == "H" + r
    ensures !(|s| > 0 && s[0] == 'H') ==> r == s
  {
    if |s| > 0 && s[0] == 'H' then s[1..] else s
  }

  /** The depth used: `max_depth` when it reads as an integer from 1 to 20, else 10. */
  function EffectiveDepth(maxDepth: Option<string>, intOf: string -> Option<int>): (d: int)
    ensures 1 <= d <= 20
    ensures maxDepth.None? ==> d == 10
    ensures maxDepth.Some? && intOf(maxDepth.value).Some? && 1 <= intOf(maxDepth.value).value <= 20 ==>
      d == intOf(maxDepth.value).value
    ensures d != 10 ==> maxDepth.Some? && intOf(maxDepth.value) == Some(d)
  {
    if maxDepth.None? then 10
    else
      var n := intOf(maxDepth.value);
      if n.None? || n.value < 1 || n.value > 20 then 10 else n.value
  }

  /** The start number: the `strongs` text without one leading `H`, read as an integer. */
  function StartOf(strongs: Option<string>, intOf: string -> Option<int>): Option<int> {
    if strongs.None? || strongs.value == "" then None else intOf(WithoutH(strongs.value))
  }

  /**
   * `etymology_chain_handler`, on the `strongs` and `max_depth` arguments:
   * 400 when `strongs` is missing or empty or, after dropping one leading
   * `H`, is not an integer; 404 when the chain is empty; otherwise the chain
   * with its length and whether its last entry is primitive.
   */
  function Handler(db: map<int, Entry>, intOf: string -> Option<int>, strongs: Option<string>, maxDepth: Option<string>): (a: Answer)
    ensures strongs.None? || strongs.value == "" ==> a == MissingStrongs
    ensures a == InvalidStrongs <==> strongs.Some? && strongs.value != "" && StartOf(strongs, intOf).None?
    ensures a.Found? ==>
      && StartOf(strongs, intOf).Some?
      && a.chainLength == |a.chain| > 0
      && a.chain == ChainFrom(db, intOf, StartOf(strongs, intOf).value, EffectiveDepth(maxDepth, intOf))
      && a.reachedPrimitive == IsPrimitive(a.chain[|a.chain| - 1])
    ensures Status(a) == 404 <==> (StartOf(strongs, intOf).Some?
      && ChainFrom(db, intOf, StartOf(strongs, intOf).value, EffectiveDepth(maxDepth, intOf)) == [])
  {
    if strongs.None? || strongs.value == "" then MissingStrongs
    else
      var n := StartOf(strongs, intOf);
      if n.None? then InvalidStrongs
      else
        var start := n.value;
        var chain := ChainFrom(db, intOf, start, EffectiveDepth(maxDepth, intOf));
        var word := "H" + IntToString(start);
        if chain == [] then NoData(word)
        else Found(word, |chain|, IsPrimitive(chain[|chain| - 1]), chain)
  }

  /** A leading `H` makes no difference, unless it is all there is or another `H` follows it. */
  lemma LeadingHIgnored(db: map<int, Entry>, intOf: string -> Option<int>, s: string, maxDepth: Option<string>)
    requires s != "" && s[0] != 'H'
    ensures Handler(db, intOf, Some("H" + s), maxDepth) == Handler(db, intOf, Some(s), maxDepth)
  {
    assert WithoutH("H" + s) == s;
  }

  /** A start number of 0, or one whose lookup fails, always answers 404. */
  lemma UnknownStartNotFound(db: map<int, Entry>, intOf: string -> Option<int>, strongs: string, maxDepth: Option<string>)
    requires strongs != "" && intOf(WithoutH(strongs)).Some?
    requires intOf(WithoutH(strongs)).value == 0 || intOf(WithoutH(strongs)).value !in db
    ensures Status(Handler(db, intOf, Some(strongs), maxDepth)) == 404
  {
  }
}
