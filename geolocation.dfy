/**
 * Reading a latitude/longitude pair typed by a user (`parse_coordinates` in
 * backend/geolocation.py): decimal or degrees-minutes-seconds values, with
 * optional cardinal letters, separated by `;`, `,`, `|` or spaces.
 *
 * Python's `float()` on a string is the parameter `floatOf` (`None` where
 * it raises); the digit groups of the DMS form are read exactly.
 */
module Geolocation {
  import opened Wrappers
  import opened Text

  // ---------------------------------------------------------------------------
  // Whitespace, stripping and splitting

  /** Whitespace as `\s`, `strip()` and `split()` treat it, among ASCII characters: space, tab to carriage return, and the separators 0x1C to 0x1F. */
  predicate IsSpace(c: char) {
    c == ' ' || '\t' <= c <= '\r' || '\U{1C}' <= c <= '\U{1F}'
  }

  /** `s.lstrip()`. */
  function StripLeft(s: string): (r: string)
    ensures |r| <= |s| && r == s[|s| - |r|..]
    ensures |r| == 0 || !IsSpace(r[0])
    ensures forall k :: 0 <= k < |s| - |r| ==> IsSpace(s[k])
  {
    if |s| > 0 && IsSpace(s[0]) then StripLeft(s[1..]) else s
  }

  /** `s.rstrip()`. */
  function StripRight(s: string): (r: string)
    ensures |r| <= |s| && r == s[..|r|]
    ensures |r| == 0 || !IsSpace(r[|r| - 1])
    ensures forall k :: |r| <= k < |s| ==> IsSpace(s[k])
  {
    if |s| > 0 && IsSpace(s[|s| - 1]) then StripRight(s[..|s| - 1]) else s
  }

  /** `s.strip()`: what is left has no whitespace at either end. */
  function Strip(s: string): (r: string)
    ensures |r| == 0 || (!IsSpace(r[0]) && !IsSpace(r[|r| - 1]))
  {
    StripRight(StripLeft(s))
  }

  /** The characters of `s` that are not whitespace. */
  function NonSpace(s: string): string {
    Without(s, IsSpace)
  }

  lemma {:induction false} NonSpaceStripLeft(s: string)
    ensures NonSpace(StripLeft(s)) == NonSpace(s)
  {
    if |s| > 0 && IsSpace(s[0]) {
      NonSpaceStripLeft(s[1..]);
    }
  }

  /** Every whitespace character of `r` is a plain space that is not followed by whitespace. */
  predicate SingleSpaced(r: string) {
    forall k :: 0 <= k < |r| && IsSpace(r[k]) ==> r[k] == ' ' && (k + 1 == |r| || !IsSpace(r[k + 1]))
  }

  lemma SingleSpacedCons(c: char, r: string)
    requires SingleSpaced(r)
    requires IsSpace(c) ==> c == ' ' && (|r| == 0 || !IsSpace(r[0]))
    ensures SingleSpaced([c] + r)
  {
    var cr := [c] + r;
    forall k | 0 <= k < |cr| && IsSpace(cr[k])
      ensures cr[k] == ' ' && (k + 1 == |cr| || !IsSpace(cr[k + 1]))
    {
      if k > 0 {
        assert cr[k] == r[k - 1];
      }
    }
  }

  /**
   * `re.sub(r'\s+', ' ', s)`: every run of whitespace becomes one space. No
   * other character is lost, and no space is followed by whitespace.
   */
  function CollapseSpaces(s: string): (r: string)
    ensures NonSpace(r) == NonSpace(s)
    ensures |s| > 0 ==> |r| > 0 && (IsSpace(r[0]) <==> IsSpace(s[0]))
    ensures SingleSpaced(r)
    decreases |s|
  {
    if |s| == 0 then []
    else if IsSpace(s[0]) then
      var rest := StripLeft(s[1..]);
      NonSpaceStripLeft(s[1..]);
      var tail := CollapseSpaces(rest);
      SingleSpacedCons(' ', tail);
      var r := [' '] + tail;
      assert r[1..] == tail;
      r
    else
      var tail := CollapseSpaces(s[1..]);
      SingleSpacedCons(s[0], tail);
      var r := [s[0]] + tail;
      assert r[1..] == tail;
      r
  }

  /** No piece holds a separator. */
  predicate SepFree(pieces: seq<string>, sep: char -> bool) {
    forall i, j :: 0 <= i < |pieces| && 0 <= j < |pieces[i]| ==> !sep(pieces[i][j])
  }

  lemma SepFreeCons(p: string, pieces: seq<string>, sep: char -> bool)
    requires forall j :: 0 <= j < |p| ==> !sep(p[j])
    requires SepFree(pieces, sep)
    ensures SepFree([p] + pieces, sep)
  {
    var ps := [p] + pieces;
    forall i, j | 0 <= i < |ps| && 0 <= j < |ps[i]|
      ensures !sep(ps[i][j])
    {
      if i > 0 {
        assert ps[i] == pieces[i - 1];
      }
    }
  }

  lemma SepFreeTail(pieces: seq<string>, sep: char -> bool)
    requires |pieces| > 0 && SepFree(pieces, sep)
    ensures SepFree(pieces[1..], sep)
    ensures forall j :: 0 <= j < |pieces[0]| ==> !sep(pieces[0][j])
  {
    forall i, j | 0 <= i < |pieces| - 1 && 0 <= j < |pieces[1..][i]|
      ensures !sep(pieces[1..][i][j])
    {
      assert pieces[1..][i] == pieces[i + 1];
    }
  }

  /** The pieces joined end to end. */
  function Flatten(pieces: seq<string>): string {
    if |pieces| == 0 then [] else pieces[0] + Flatten(pieces[1..])
  }

  /** The characters of `s` that are not separators. */
  function Without(s: string, sep: char -> bool): string {
    if |s| == 0 then [] else (if sep(s[0]) then [] else [s[0]]) + Without(s[1..], sep)
  }

  /** The number of separators in `s`. */
  function CountSeps(s: string, sep: char -> bool): nat {
    if |s| == 0 then 0 else (if sep(s[0]) then 1 else 0) + CountSeps(s[1..], sep)
  }

  /**
   * Python's split on single separator characters (`re.split` over a
   * character class): one more piece than there are separators, no
   * separator inside a piece, and nothing else lost.
   */
  function SplitBy(s: string, sep: char -> bool): (r: seq<string>)
    ensures |r| == CountSeps(s, sep) + 1
  {
    if |s| == 0 then [""]
    else
      var rest := SplitBy(s[1..], sep);
      if sep(s[0]) then [""] + rest
      else [[s[0]] + rest[0]] + rest[1..]
  }

  /** No piece of the split holds a separator, and joining the pieces loses only the separators. */
  lemma {:induction false} SplitByMeaning(s: string, sep: char -> bool)
    ensures SepFree(SplitBy(s, sep), sep)
    ensures Flatten(SplitBy(s, sep)) == Without(s, sep)
  {
    SplitBySepFree(s, sep);
    SplitByFlatten(s, sep);
  }

  lemma {:induction false} SplitBySepFree(s: string, sep: char -> bool)
    ensures SepFree(SplitBy(s, sep), sep)
  {
    if |s| > 0 {
      var rest := SplitBy(s[1..], sep);
      SplitBySepFree(s[1..], sep);
      if sep(s[0]) {
        SepFreeCons("", rest, sep);
      } else {
        SepFreeTail(rest, sep);
        SepFreeCons([s[0]] + rest[0], rest[1..], sep);
      }
    }
  }

  lemma {:induction false} SplitByFlatten(s: string, sep: char -> bool)
    ensures Flatten(SplitBy(s, sep)) == Without(s, sep)
  {
    if |s| > 0 {
      var rest := SplitBy(s[1..], sep);
      SplitByFlatten(s[1..], sep);
      if sep(s[0]) {
        FlattenCons("", rest);
      } else {
        FlattenCons([s[0]] + rest[0], rest[1..]);
        FlattenCons(rest[0], rest[1..]);
        assert [rest[0]] + rest[1..] == rest;
      }
    }
  }

  lemma FlattenCons(p: string, pieces: seq<string>)
    ensures Flatten([p] + pieces) == p + Flatten(pieces)
  {
    assert ([p] + pieces)[1..] == pieces;
  }

  /** The pieces that are not empty. */
  function NonEmpty(pieces: seq<string>): (r: seq<string>)
    ensures forall i :: 0 <= i < |r| ==> |r[i]| > 0
    ensures forall i :: 0 <= i < |r| ==> r[i] in pieces
    ensures Flatten(r) == Flatten(pieces)
  {
    if |pieces| == 0 then []
    else
      var rest := NonEmpty(pieces[1..]);
      assert forall i :: 0 <= i < |rest| ==> rest[i] in pieces;
      if |pieces[0]| == 0 then
        assert pieces[0] + Flatten(pieces[1..]) == Flatten(pieces[1..]);
        rest
      else
        var r := [pieces[0]] + rest;
        assert r[1..] == rest;
        r
  }

  /** Non-empty with no whitespace at either end. */
  predicate Trimmed(p: string) {
    |p| > 0 && !IsSpace(p[0]) && !IsSpace(p[|p| - 1])
  }

  /** Every part is non-empty with no whitespace at either end. */
  predicate AllTrimmed(parts: seq<string>) {
    forall i :: 0 <= i < |parts| ==> Trimmed(parts[i])
  }

  /** A word: non-empty, with no whitespace. */
  predicate IsWord(w: string) {
    |w| > 0 && forall j :: 0 <= j < |w| ==> !IsSpace(w[j])
  }

  /** `s.split()`: the maximal runs of non-whitespace. */
  function Words(s: string): (r: seq<string>)
    ensures forall i :: 0 <= i < |r| ==> IsWord(r[i])
    ensures Flatten(r) == NonSpace(s)
  {
    var pieces := SplitBy(s, IsSpace);
    SplitByMeaning(s, IsSpace);
    var r := NonEmpty(pieces);
    forall i | 0 <= i < |r|
      ensures IsWord(r[i])
    {
      assert r[i] in pieces;
    }
    r
  }

  /** `f"{a} {b}"` for two words: no whitespace at either end. */
  function Pair(a: string, b: string): (p: string)
    requires IsWord(a) && IsWord(b)
    ensures Trimmed(p)
  {
    var p := a + " " + b;
    assert p[0] == a[0] && p[|p| - 1] == b[|b| - 1];
    p
  }

  lemma AllTrimmedCons(p: string, parts: seq<string>)
    requires Trimmed(p) && AllTrimmed(parts)
    ensures AllTrimmed([p] + parts)
  {
    var ps := [p] + parts;
    forall i | 0 <= i < |ps|
      ensures Trimmed(ps[i])
    {
      if i > 0 {
        assert ps[i] == parts[i - 1];
      }
    }
  }

  /** `[p.strip() for p in pieces if p.strip()]`. */
  function StrippedNonEmpty(pieces: seq<string>): (r: seq<string>)
    ensures |r| <= |pieces|
    ensures AllTrimmed(r)
  {
    if |pieces| == 0 then []
    else
      var p := Strip(pieces[0]);
      var rest := StrippedNonEmpty(pieces[1..]);
      if |p| == 0 then rest
      else
        AllTrimmedCons(p, rest);
        [p] + rest
  }

  // ---------------------------------------------------------------------------
  // The two coordinate parts

  predicate IsPartSep(c: char) {
    c == ';' || c == ',' || c == '|'
  }

  /** A token that is one cardinal letter in either case. */
  predicate IsCardinal(p: string) {
    |p| == 1 && p[0] in "nsewNSEW"
  }

  /** The input with its whitespace stripped and collapsed. */
  function Normalised(input: string): string {
    CollapseSpaces(Strip(input))
  }

  /** The parts of the normalised text `s` between `;`, `,` and `|`, stripped, empty ones dropped. */
  function SeparatedParts(s: string): seq<string> {
    StrippedNonEmpty(SplitBy(s, IsPartSep))
  }

  /**
   * The coordinate parts: the separated parts when there are at least two;
   * otherwise the space-separated words, regrouped as `"value letter"` pairs
   * when there are four with a cardinal second and fourth, kept when there
   * are two, and none at all for any other count of two or more. Every part
   * is non-empty with no whitespace at either end.
   */
  function Parts(input: string): (r: seq<string>)
    ensures AllTrimmed(r)
  {
    PartsOf(Normalised(input))
  }

  /** Words are trimmed. */
  lemma WordsTrimmed(words: seq<string>)
    requires forall i :: 0 <= i < |words| ==> IsWord(words[i])
    ensures AllTrimmed(words)
  {
    forall i | 0 <= i < |words|
      ensures Trimmed(words[i])
    {
      var w := words[i];
      assert IsWord(w);
      assert !IsSpace(w[0]) && !IsSpace(w[|w| - 1]);
    }
  }

  /**
   * The parts made of the space-separated words: four words with a cardinal
   * second and fourth are regrouped as two `"value letter"` pairs, two words
   * are kept, fewer are kept (and then refused), any other count gives none.
   */
  function WordParts(words: seq<string>): (r: seq<string>)
    requires forall i :: 0 <= i < |words| ==> IsWord(words[i])
    ensures AllTrimmed(r)
  {
    WordsTrimmed(words);
    if |words| == 4 && IsCardinal(words[1]) && IsCardinal(words[3]) then
      var a, b := Pair(words[0], words[1]), Pair(words[2], words[3]);
      AllTrimmedCons(b, []);
      AllTrimmedCons(a, [b]);
      [a] + [b]
    else if |words| <= 2 then words
    else []
  }

  /** The coordinate parts of the normalised text `s`. */
  function PartsOf(s: string): (r: seq<string>)
    ensures AllTrimmed(r)
  {
    var parts := SeparatedParts(s);
    if |parts| >= 2 then parts else WordParts(Words(s))
  }

  // ---------------------------------------------------------------------------
  // The cardinal letter of one coordinate

  datatype Direction = North | South | East | West

  /** Which coordinate is being read (`is_lat`). */
  datatype Axis = Latitude | Longitude

  predicate IsWordChar(c: char) {
    IsDigit(c) || 'a' <= c <= 'z' || 'A' <= c <= 'Z' || c == '_'
  }

  predicate IsDirectionLetter(c: char) {
    c in "nsewNSEW"
  }

  /** `\b[nsew]\b` (ignoring case) matches at position `i`: a cardinal letter standing alone as a word. */
  predicate StandaloneAt(s: string, i: int) {
    && 0 <= i < |s|
    && IsDirectionLetter(s[i])
    && (i == 0 || !IsWordChar(s[i - 1]))
    && (i + 1 == |s| || !IsWordChar(s[i + 1]))
  }

  /** The position `re.search` finds from `i` on: the first standalone cardinal letter. */
  function FirstStandalone(s: string, i: nat): (r: Option<nat>)
    requires i <= |s|
    ensures r.Some? ==> i <= r.value < |s| && StandaloneAt(s, r.value) && forall j :: i <= j < r.value ==> !StandaloneAt(s, j)
    ensures r.None? ==> forall j :: i <= j < |s| ==> !StandaloneAt(s, j)
    decreases |s| - i
  {
    if i == |s| then None
    else if StandaloneAt(s, i) then Some(i)
    else FirstStandalone(s, i + 1)
  }

  /** `re.sub(r'\b[nsew]\b', '', s[i..])`: every standalone cardinal letter of `s` from `i` on removed. */
  function RemoveStandalone(s: string, i: nat): (r: string)
    requires i <= |s|
    ensures |r| <= |s| - i
    ensures FirstStandalone(s, i).None? ==> r == s[i..]
    ensures FirstStandalone(s, i).Some? ==> |r| < |s| - i
    decreases |s| - i
  {
    if i == |s| then []
    else (if StandaloneAt(s, i) then [] else [s[i]]) + RemoveStandalone(s, i + 1)
  }

  /** The upper-cased letter as a direction. */
  function DirectionOf(c: char): Direction {
    if c == 'n' || c == 'N' then North
    else if c == 's' || c == 'S' then South
    else if c == 'e' || c == 'E' then East
    else West
  }

  /** The coordinate text with its cardinal letters removed, and the first of them. */
  function Clean(part: string): (string, Option<Direction>) {
    var s := Strip(part);
    var m := FirstStandalone(s, 0);
    if m.Some? then (Strip(RemoveStandalone(s, 0)), Some(DirectionOf(s[m.value])))
    else (s, None)
  }

  // ---------------------------------------------------------------------------
  // Reading a value

  datatype CoordError = OutOfRange | InvalidDirection | InvalidDms | Unparsable

  function Abs(x: real): real {
    if x < 0.0 then -x else x
  }

  /** The range check of each coordinate: [-90, 90] for a latitude, [-180, 180] for a longitude. */
  predicate InRange(v: real, axis: Axis) {
    if axis == Latitude then -90.0 <= v <= 90.0 else -180.0 <= v <= 180.0
  }

  /**
   * The decimal attempt once `float()` succeeded: the range check on the
   * value as read, then the sign from the letter. `None` is a `ValueError`,
   * which the caller swallows before trying the DMS form.
   */
  function FromDecimal(v: real, dir: Option<Direction>, axis: Axis): (r: Option<real>)
    ensures r.Some? ==> InRange(r.value, axis) && Abs(r.value) == Abs(v)
    ensures r.Some? && dir.None? ==> r.value == v
    ensures r.Some? && dir == Some(South) ==> axis == Latitude && r.value <= 0.0
    ensures r.Some? && dir == Some(West) ==> axis == Longitude && r.value <= 0.0
    ensures r.Some? && (dir == Some(North) || dir == Some(East)) ==> r.value >= 0.0
    ensures InRange(v, axis) && (dir == Some(North) || dir == Some(East)) ==> r.Some?
  {
    if !InRange(v, axis) then None
    else if dir.None? then Some(v)
    else if axis == Latitude && dir.value == South then Some(-Abs(v))
    else if axis == Longitude && dir.value == West then Some(-Abs(v))
    else if dir.value == North || dir.value == East then Some(Abs(v))
    else None
  }

  /** `[°:\s]`, the character after the degrees. */
  predicate IsDegreeSep(c: char) {
    c == '°' || c == ':' || IsSpace(c)
  }

  /** `[' :\s]`, the character after the minutes. */
  predicate IsMinuteSep(c: char) {
    c == '\'' || c == ':' || IsSpace(c)
  }

  /** The groups of a DMS text: degrees, minutes, whole and fractional seconds, and the separators around them. */
  datatype Dms = Dms(degrees: string, sep1: char, minutes: string, sep2: char, seconds: string, fraction: string, quoted: bool)

  predicate WellFormedDms(g: Dms) {
    && |g.degrees| > 0 && AllDigits(g.degrees)
    && IsDegreeSep(g.sep1)
    && |g.minutes| > 0 && AllDigits(g.minutes)
    && IsMinuteSep(g.sep2)
    && |g.seconds| > 0 && AllDigits(g.seconds)
    && AllDigits(g.fraction)
  }

  /** The text of the seconds group: whole seconds, an optional fraction, an optional closing quote. */
  function SecondsText(seconds: string, fraction: string, quoted: bool): string {
    seconds + ((if |fraction| > 0 then "." + fraction else "") + (if quoted then "\"" else ""))
  }

  /** The text the groups were read from. */
  function RenderDms(g: Dms): string {
    g.degrees + ([g.sep1] + (g.minutes + ([g.sep2] + SecondsText(g.seconds, g.fraction, g.quoted))))
  }

  /** The longest prefix of digits. */
  function DigitPrefix(s: string): (r: string)
    ensures |r| <= |s| && r == s[..|r|] && AllDigits(r)
    ensures |r| == |s| || !IsDigit(s[|r|])
  {
    if |s| > 0 && IsDigit(s[0]) then [s[0]] + DigitPrefix(s[1..]) else []
  }

  /** Digits followed by a non-digit (or nothing) are exactly the digit prefix. */
  lemma DigitPrefixOf(d: string, rest: string)
    requires AllDigits(d)
    requires |rest| == 0 || !IsDigit(rest[0])
    ensures DigitPrefix(d + rest) == d
  {
    assert (d + rest)[..|d|] == d;
  }

  /** The match of `(\d+(?:\.\d+)?)"?$` at the start of `s`: whole seconds, fraction, closing quote. */
  function MatchSeconds(s: string): (r: Option<(string, string, bool)>)
    ensures r.Some? ==> |r.value.0| > 0 && AllDigits(r.value.0) && AllDigits(r.value.1)
    ensures r.Some? ==> SecondsText(r.value.0, r.value.1, r.value.2) == s
  {
    var sec := DigitPrefix(s);
    if |sec| == 0 then None
    else
      var rest := s[|sec|..];
      assert s == sec + rest;
      var hasFraction := |rest| >= 2 && rest[0] == '.' && IsDigit(rest[1]);
      var fraction := if hasFraction then DigitPrefix(rest[1..]) else "";
      var end := if hasFraction then rest[1 + |fraction|..] else rest;
      assert rest == (if |fraction| > 0 then "." + fraction else "") + end;
      if |end| == 0 then Some((sec, fraction, false))
      else if end == "\"" then Some((sec, fraction, true))
      else None
  }

  lemma MatchSecondsText(seconds: string, fraction: string, quoted: bool)
    requires |seconds| > 0 && AllDigits(seconds) && AllDigits(fraction)
    ensures MatchSeconds(SecondsText(seconds, fraction, quoted)) == Some((seconds, fraction, quoted))
  {
    var end := if quoted then "\"" else "";
    var rest := (if |fraction| > 0 then "." + fraction else "") + end;
    var s := seconds + rest;
    DigitPrefixOf(seconds, rest);
    assert s[|seconds|..] == rest;
    if |fraction| > 0 {
      FractionTail(fraction, end);
    }
  }

  /** After the dot, the fraction's digit prefix is the fraction and what follows is the closing text. */
  lemma FractionTail(fraction: string, end: string)
    requires |fraction| > 0 && AllDigits(fraction)
    requires end == "" || end == "\""
    ensures var rest := "." + fraction + end;
      && rest[1..] == fraction + end
      && DigitPrefix(rest[1..]) == fraction
      && rest[1 + |fraction|..] == end
  {
    DigitPrefixOf(fraction, end);
    var rest := "." + fraction + end;
    assert rest[1..] == fraction + end;
  }

  /** The match of `^(\d+)[°:\s](\d+)[' :\s](\d+(?:\.\d+)?)"?$` against `s`, or `None`. */
  function MatchDms(s: string): (r: Option<Dms>)
    ensures r.Some? ==> WellFormedDms(r.value) && RenderDms(r.value) == s
  {
    var d := DigitPrefix(s);
    if |d| == 0 || |d| == |s| || !IsDegreeSep(s[|d|]) then None
    else
      var s2 := s[|d| + 1..];
      assert s == d + ([s[|d|]] + s2);
      var m := DigitPrefix(s2);
      if |m| == 0 || |m| == |s2| || !IsMinuteSep(s2[|m|]) then None
      else
        var s3 := s2[|m| + 1..];
        assert s2 == m + ([s2[|m|]] + s3);
        var secs := MatchSeconds(s3);
        if secs.None? then None
        else Some(Dms(d, s[|d|], m, s2[|m|], secs.value.0, secs.value.1, secs.value.2))
  }

  /** Reading back any well-formed DMS text gives its groups. */
  lemma MatchRenderDms(g: Dms)
    requires WellFormedDms(g)
    ensures MatchDms(RenderDms(g)) == Some(g)
  {
    var s3 := SecondsText(g.seconds, g.fraction, g.quoted);
    var s2 := g.minutes + ([g.sep2] + s3);
    var s := g.degrees + ([g.sep1] + s2);
    assert s == RenderDms(g);
    DigitPrefixOf(g.degrees, [g.sep1] + s2);
    assert DigitPrefix(s) == g.degrees;
    assert s[|g.degrees|] == g.sep1;
    assert s[|g.degrees| + 1..] == s2;
    DigitPrefixOf(g.minutes, [g.sep2] + s3);
    assert DigitPrefix(s2) == g.minutes;
    assert s2[|g.minutes|] == g.sep2;
    assert s2[|g.minutes| + 1..] == s3;
    MatchSecondsText(g.seconds, g.fraction, g.quoted);
  }

  /** 10 to the `n`. */
  function Pow10(n: nat): (p: nat)
    ensures p >= 1
  {
    if n == 0 then 1 else 10 * Pow10(n - 1)
  }

  /** The value of the seconds group, as `float()` reads it. */
  function SecondsOf(g: Dms): (v: real)
    requires WellFormedDms(g)
    ensures v >= 0.0
  {
    var fraction := ParseDigits(g.fraction) as real / Pow10(|g.fraction|) as real;
    assert fraction >= 0.0;
    ParseDigits(g.seconds) as real + fraction
  }

  /** `degrees + minutes / 60 + seconds / 3600`. */
  function DmsMagnitude(g: Dms): (v: real)
    requires WellFormedDms(g)
    ensures v >= 0.0
  {
    var minutes, seconds := ParseDigits(g.minutes) as real / 60.0, SecondsOf(g) / 3600.0;
    assert minutes >= 0.0 && seconds >= 0.0;
    ParseDigits(g.degrees) as real + minutes + seconds
  }

  /**
   * The DMS attempt: minutes or seconds of 60 or more are rejected; otherwise
   * the magnitude gets the sign of the letter and is range-checked.
   */
  function FromDms(g: Dms, dir: Option<Direction>, axis: Axis): (r: Result<real, CoordError>)
    requires WellFormedDms(g)
    ensures r == Err(InvalidDms) <==> ParseDigits(g.minutes) >= 60 || SecondsOf(g) >= 60.0
    ensures r.Ok? ==> InRange(r.value, axis) && Abs(r.value) == DmsMagnitude(g)
    ensures r.Ok? && dir.None? ==> r.value == DmsMagnitude(g)
    ensures r.Ok? && dir == Some(South) ==> axis == Latitude && r.value <= 0.0
    ensures r.Ok? && dir == Some(West) ==> axis == Longitude && r.value <= 0.0
    ensures r.Ok? && (dir == Some(North) || dir == Some(East)) ==> r.value >= 0.0
  {
    if ParseDigits(g.minutes) >= 60 || SecondsOf(g) >= 60.0 then Err(InvalidDms)
    else
      var value := DmsMagnitude(g);
      var signed :=
        if dir.None? then Ok(value)
        else if axis == Latitude && dir.value == South then Ok(-value)
        else if axis == Longitude && dir.value == West then Ok(-value)
        else if dir.value == North || dir.value == East then Ok(Abs(value))
        else Err(InvalidDirection);
      if signed.Err? then signed
      else if !InRange(signed.value, axis) then Err(OutOfRange)
      else signed
  }

  /**
   * `parse_single_coord`: the decimal reading when `float()` accepts the
   * cleaned text and it passes the range and letter checks, else the DMS
   * reading, else `Unparsable`. A value read is in range; `S` is accepted
   * only on a latitude and `W` only on a longitude, each making the value
   * non-positive, and `N` or `E` on either makes it non-negative (so `W` on
   * a latitude and `S` on a longitude are always refused).
   */
  function ParseSingle(part: string, axis: Axis, floatOf: string -> Option<real>): (r: Result<real, CoordError>)
    ensures r.Ok? ==> InRange(r.value, axis)
    ensures r.Ok? && Clean(part).1 == Some(South) ==> axis == Latitude && r.value <= 0.0
    ensures r.Ok? && Clean(part).1 == Some(West) ==> axis == Longitude && r.value <= 0.0
    ensures r.Ok? && (Clean(part).1 == Some(North) || Clean(part).1 == Some(East)) ==> r.value >= 0.0
  {
    var (coord, dir) := Clean(part);
    var decimal := if floatOf(coord).Some? then FromDecimal(floatOf(coord).value, dir, axis) else None;
    if decimal.Some? then Ok(decimal.value)
    else
      var g := MatchDms(coord);
      if g.None? then Err(Unparsable)
      else FromDms(g.value, dir, axis)
  }

  /**
   * When `float()` refuses the text and it is a DMS text, minutes or seconds
   * of 60 or more are refused and otherwise the value has magnitude
   * `degrees + minutes / 60 + seconds / 3600`.
   */
  lemma DmsReading(part: string, axis: Axis, floatOf: string -> Option<real>, g: Dms)
    requires floatOf(Clean(part).0).None?
    requires WellFormedDms(g) && Clean(part).0 == RenderDms(g)
    ensures ParseDigits(g.minutes) >= 60 || SecondsOf(g) >= 60.0 ==> ParseSingle(part, axis, floatOf) == Err(InvalidDms)
    ensures ParseSingle(part, axis, floatOf).Ok? ==> Abs(ParseSingle(part, axis, floatOf).value) == DmsMagnitude(g)
  {
    MatchRenderDms(g);
  }

  // ---------------------------------------------------------------------------
  // The whole input

  /**
   * `parse_coordinates`: `None` for empty input, for fewer than two parts,
   * or when either coordinate raises `ValueError`; otherwise the latitude
   * read from the first part and the longitude from the second, each in its
   * range.
   */
  function ParseCoordinates(input: string, floatOf: string -> Option<real>): (r: Option<(real, real)>)
    ensures input == "" ==> r.None?
    ensures r.Some? ==> -90.0 <= r.value.0 <= 90.0 && -180.0 <= r.value.1 <= 180.0
    ensures r.Some? <==> (input != "" && |Parts(input)| >= 2
      && ParseSingle(Parts(input)[0], Latitude, floatOf).Ok?
      && ParseSingle(Parts(input)[1], Longitude, floatOf).Ok?)
  {
    if input == "" then None
    else
      var parts := Parts(input);
      if |parts| < 2 then None
      else
        var lat := ParseSingle(parts[0], Latitude, floatOf);
        var lon := ParseSingle(parts[1], Longitude, floatOf);
        if lat.Ok? && lon.Ok? then Some((lat.value, lon.value)) else None
  }

  /**
   * Without `;`, `,` or `|` parts, an input of neither two words nor four
   * words with cardinal second and fourth gives `None`.
   */
  lemma UngroupableWordsRefused(input: string, floatOf: string -> Option<real>)
    requires |SeparatedParts(Normalised(input))| < 2
    requires var words := Words(Normalised(input));
      |words| != 2 && !(|words| == 4 && IsCardinal(words[1]) && IsCardinal(words[3]))
    ensures ParseCoordinates(input, floatOf).None?
  {
  }

  /** Four words with cardinal second and fourth are read as `"value letter"` pairs. */
  lemma CardinalWordsRegrouped(input: string)
    requires |SeparatedParts(Normalised(input))| < 2
    requires var words := Words(Normalised(input));
      |words| == 4 && IsCardinal(words[1]) && IsCardinal(words[3])
    ensures var words := Words(Normalised(input));
      Parts(input) == [words[0] + " " + words[1], words[2] + " " + words[3]]
  {
  }
}
