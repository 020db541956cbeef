/**
 * The day-type heatmap (backend/astronomy/daytype_heatmap.py and the merged
 * generator in backend/astronomy/map/map.py): every grid cell is classed by
 * the Sun's altitude there as day, civil, nautical or astronomical twilight,
 * or night; cells whose marker square misses the image are skipped; the
 * generator in map/map.py also tracks the nearest night cell and the
 * outermost astronomical-twilight cell, and wraps longitudes into
 * [-180, 180).
 *
 * Altitudes, pixel positions and pixel radii come from floating-point
 * geometry, which is not part of this model: they are given per cell.
 */
module DayType {
  import opened Wrappers

  /** The five classes, from lightest to darkest. */
  datatype DayClass = DayLight | CivilTwilight | NauticalTwilight | AstronomicalTwilight | Night

  /** The key the class is written as in the scripts (`cls`). */
  function ClassName(c: DayClass): (name: string)
    ensures name in Cmap
  {
    match c
    case DayLight => "day"
    case CivilTwilight => "civil"
    case NauticalTwilight => "nautical"
    case AstronomicalTwilight => "astronomical"
    case Night => "night"
  }

  /** The colour table shared by both generators. */
  const Cmap: map<string, (int, int, int)> := map[
    "day" := (255, 236, 153),
    "civil" := (255, 208, 138),
    "nautical" := (193, 218, 251),
    "astronomical" := (155, 176, 232),
    "night" := (15, 35, 63)]

  /** How dark a class is: 0 for day up to 4 for night. */
  function Darkness(c: DayClass): nat {
    match c
    case DayLight => 0
    case CivilTwilight => 1
    case NauticalTwilight => 2
    case AstronomicalTwilight => 3
    case Night => 4
  }

  /**
   * The class of a cell whose Sun altitude is `alt` degrees. The thresholds
   * 0, -6, -12 and -18 split the altitudes into five bands: strict at 0,
   * inclusive at the other three.
   */
  function Classify(alt: real): (c: DayClass)
    ensures c == DayLight <==> alt > 0.0
    ensures c == CivilTwilight <==> -6.0 <= alt <= 0.0
    ensures c == NauticalTwilight <==> -12.0 <= alt < -6.0
    ensures c == AstronomicalTwilight <==> -18.0 <= alt < -12.0
    ensures c == Night <==> alt < -18.0
  {
    if alt > 0.0 then DayLight
    else if alt >= -6.0 then CivilTwilight
    else if alt >= -12.0 then NauticalTwilight
    else if alt >= -18.0 then AstronomicalTwilight
    else Night
  }

  /** A higher altitude never gives a darker class. */
  lemma ClassifyMonotone(lower: real, higher: real)
    requires lower <= higher
    ensures Darkness(Classify(higher)) <= Darkness(Classify(lower))
  {
  }

  // ---------------------------------------------------------------------------
  // Skipping cells off the image

  /**
   * The marker square of side `2 * halfPx + 1` centred on pixel (x, y) lies
   * wholly outside the `size` x `size` image: the bounds check of both
   * generators.
   */
  predicate OffImage(x: int, y: int, halfPx: int, size: int) {
    x + halfPx < 0 || y + halfPx < 0 || x - halfPx >= size || y - halfPx >= size
  }

  /** Pixel (px, py) is covered by the marker square centred on (x, y). */
  predicate Covers(x: int, y: int, halfPx: int, px: int, py: int) {
    x - halfPx <= px <= x + halfPx && y - halfPx <= py <= y + halfPx
  }

  /** Pixel (px, py) is inside the image. */
  predicate InImage(px: int, py: int, size: int) {
    0 <= px < size && 0 <= py < size
  }

  /** A cell is skipped exactly when its marker square covers no pixel of the image. */
  lemma OffImageMeansNoPixel(x: int, y: int, halfPx: int, size: int)
    requires halfPx >= 0 && size > 0
    ensures !OffImage(x, y, halfPx, size) <==>
      exists px, py :: Covers(x, y, halfPx, px, py) && InImage(px, py, size)
  {
    if !OffImage(x, y, halfPx, size) {
      var px := if x - halfPx >= 0 then x - halfPx else 0;
      var py := if y - halfPx >= 0 then y - halfPx else 0;
      assert Covers(x, y, halfPx, px, py) && InImage(px, py, size);
    }
  }

  // ---------------------------------------------------------------------------
  // Drawing the day-type heatmap (daytype_heatmap.py)

  /** One grid cell as the drawing loop sees it: altitude, pixel centre and pixel radius from the pole. */
  datatype Cell = Cell(alt: real, x: int, y: int, radius: real)

  /** A filled square: its corners and its colour. */
  datatype Rect = Rect(x0: int, y0: int, x1: int, y1: int, colour: (int, int, int))

  /** The square drawn for a cell, or nothing when it is off the image. */
  function RectOf(c: Cell, halfPx: int, size: int): Option<Rect> {
    if OffImage(c.x, c.y, halfPx, size) then None
    else Some(Rect(c.x - halfPx, c.y - halfPx, c.x + halfPx, c.y + halfPx, Cmap[ClassName(Classify(c.alt))]))
  }

  function RectsOf(cells: seq<Cell>, halfPx: int, size: int): seq<Option<Rect>> {
    seq(|cells|, i requires 0 <= i < |cells| => RectOf(cells[i], halfPx, size))
  }

  /** The squares drawn for `cells`, in drawing order. */
  function DrawnRects(cells: seq<Cell>, halfPx: int, size: int): seq<Rect> {
    Somes(RectsOf(cells, halfPx, size))
  }

  /** The drawing loop of `generate_heatmap` in daytype_heatmap.py. */
  method DrawCells(cells: seq<Cell>, halfPx: int, size: int) returns (drawn: seq<Rect>)
    ensures drawn == DrawnRects(cells, halfPx, size)
  {
    ghost var all := RectsOf(cells, halfPx, size);
    drawn := [];
    for i := 0 to |cells|
      invariant drawn == Somes(all[..i])
    {
      var c := cells[i];
      assert all[i] == RectOf(c, halfPx, size);
      SomesPrefix(all, i);
      var x0, y0, x1, y1 := c.x - halfPx, c.y - halfPx, c.x + halfPx, c.y + halfPx;
      if x1 < 0 || y1 < 0 || x0 >= size || y0 >= size {
        continue;
      }
      drawn := drawn + [Rect(x0, y0, x1, y1, Cmap[ClassName(Classify(c.alt))])];
    }
    assert all[..|cells|] == all;
  }

  /**
   * A square is drawn exactly for each cell on the image, centred on the
   * cell and filled with the colour of the cell's class.
   */
  lemma DrawnRectsMeaning(cells: seq<Cell>, halfPx: int, size: int, r: Rect)
    ensures r in DrawnRects(cells, halfPx, size) <==>
      exists i :: 0 <= i < |cells| && SquareOf(cells[i], halfPx, size, r)
  {
    var rs := RectsOf(cells, halfPx, size);
    SomesMeaning(rs);
    if r in DrawnRects(cells, halfPx, size) {
      var i :| 0 <= i < |rs| && rs[i] == Some(r);
      RectOfMeaning(cells[i], halfPx, size, r);
    }
    if exists i :: 0 <= i < |cells| && SquareOf(cells[i], halfPx, size, r) {
      var i :| 0 <= i < |cells| && SquareOf(cells[i], halfPx, size, r);
      RectOfMeaning(cells[i], halfPx, size, r);
      assert rs[i] == Some(r);
    }
  }

  /** `r` is the square around cell `c`, which passes the bounds check, filled with the colour of its class. */
  predicate SquareOf(c: Cell, halfPx: int, size: int, r: Rect) {
    && !OffImage(c.x, c.y, halfPx, size)
    && r == Rect(c.x - halfPx, c.y - halfPx, c.x + halfPx, c.y + halfPx, Cmap[ClassName(Classify(c.alt))])
  }

  lemma RectOfMeaning(c: Cell, halfPx: int, size: int, r: Rect)
    ensures RectOf(c, halfPx, size) == Some(r) <==> SquareOf(c, halfPx, size, r)
  {
  }

  // ---------------------------------------------------------------------------
  // The radius trackers of map/map.py

  /** Cell `c` is on the image and of class `k`: it reaches the class branches of the loop. */
  predicate Counted(c: Cell, k: DayClass, halfPx: int, size: int) {
    Classify(c.alt) == k && !OffImage(c.x, c.y, halfPx, size)
  }

  /**
   * What the loop keeps across all cells: the least radius of a night cell
   * (`None` while it is still infinite) with that cell's pixel, and the
   * greatest radius of an astronomical-twilight cell (starting at 0).
   */
  datatype Trackers = Trackers(minNight: Option<real>, nearest: Option<(int, int)>, maxAstro: real)

  /** The first on-image night cell of least radius. */
  predicate NearestNight(cells: seq<Cell>, halfPx: int, size: int, i: int) {
    && 0 <= i < |cells|
    && Counted(cells[i], Night, halfPx, size)
    && (forall j :: 0 <= j < |cells| && Counted(cells[j], Night, halfPx, size) ==> cells[i].radius <= cells[j].radius)
    && (forall j :: 0 <= j < i && Counted(cells[j], Night, halfPx, size) ==> cells[i].radius < cells[j].radius)
  }

  /**
   * The trackers of `generate_heatmap` in map/map.py over the cells in scan
   * order (latitude by latitude). The minimum is attained by the first
   * nearest night cell, whose pixel is kept; the maximum is 0 or attained by
   * an astronomical-twilight cell.
   */
  method TrackRadii(cells: seq<Cell>, halfPx: int, size: int) returns (t: Trackers)
    ensures t.minNight.None? <==> t.nearest.None?
    ensures t.minNight.None? <==> forall i :: 0 <= i < |cells| ==> !Counted(cells[i], Night, halfPx, size)
    ensures t.minNight.Some? ==> exists i :: (NearestNight(cells, halfPx, size, i) &&
      t.minNight.value == cells[i].radius && t.nearest == Some((cells[i].x, cells[i].y)))
    ensures t.maxAstro >= 0.0
    ensures forall i :: 0 <= i < |cells| && Counted(cells[i], AstronomicalTwilight, halfPx, size) ==> cells[i].radius <= t.maxAstro
    ensures t.maxAstro == 0.0 || exists i :: 0 <= i < |cells| && Counted(cells[i], AstronomicalTwilight, halfPx, size) && cells[i].radius == t.maxAstro
  {
    var minNight: Option<real> := None;
    var nearest: Option<(int, int)> := None;
    var maxAstro := 0.0;
    ghost var at: int := -1;
    for n := 0 to |cells|
      invariant minNight.None? <==> nearest.None?
      invariant minNight.None? <==> at == -1
      invariant minNight.None? ==> forall i :: 0 <= i < n ==> !Counted(cells[i], Night, halfPx, size)
      invariant minNight.Some? ==> (0 <= at < n && Counted(cells[at], Night, halfPx, size) &&
        minNight.value == cells[at].radius && nearest == Some((cells[at].x, cells[at].y)))
      invariant minNight.Some? ==> forall j :: 0 <= j < n && Counted(cells[j], Night, halfPx, size) ==> cells[at].radius <= cells[j].radius
      invariant minNight.Some? ==> forall j :: 0 <= j < at && Counted(cells[j], Night, halfPx, size) ==> cells[at].radius < cells[j].radius
      invariant maxAstro >= 0.0
      invariant forall i :: 0 <= i < n && Counted(cells[i], AstronomicalTwilight, halfPx, size) ==> cells[i].radius <= maxAstro
      invariant maxAstro == 0.0 || exists i :: 0 <= i < n && Counted(cells[i], AstronomicalTwilight, halfPx, size) && cells[i].radius == maxAstro
    {
      var c := cells[n];
      var cls := Classify(c.alt);
      if OffImage(c.x, c.y, halfPx, size) {
        continue;
      }
      if cls == Night {
        if minNight.None? || c.radius < minNight.value {
          minNight := Some(c.radius);
          nearest := Some((c.x, c.y));
          at := n;
        }
      } else if cls == AstronomicalTwilight {
        if c.radius > maxAstro {
          maxAstro := c.radius;
        }
      }
    }
    t := Trackers(minNight, nearest, maxAstro);
    if minNight.Some? {
      assert NearestNight(cells, halfPx, size, at);
    }
  }

  // ---------------------------------------------------------------------------
  // The longitude wrap of map/map.py

  /** Python's `a % m` on floats for a positive modulus: the remainder takes the sign of `m`. */
  function PyMod(a: real, m: real): (r: real)
    requires m > 0.0
    ensures 0.0 <= r < m
  {
    var q := (a / m).Floor;
    ScaleBounds(q as real, a, m);
    a - q as real * m
  }

  lemma PositiveProduct(u: real, v: real)
    requires u > 0.0 && v > 0.0
    ensures u * v > 0.0
  {
  }

  /** Multiplying `q <= a / m < q + 1` through by `m`. */
  lemma ScaleBounds(q: real, a: real, m: real)
    requires m > 0.0 && q <= a / m < q + 1.0
    ensures q * m <= a < q * m + m
  {
    var x := a / m;
    assert x * m == a;
    PositiveProduct(q + 1.0 - x, m);
    assert (q + 1.0 - x) * m == q * m + m - x * m;
    assert q * m + m - a > 0.0;
    if x > q {
      PositiveProduct(x - q, m);
      assert (x - q) * m == x * m - q * m;
    }
  }

  /** `d` is a whole number of turns. */
  predicate WholeTurns(d: real) {
    (d / 360.0).Floor as real == d / 360.0
  }

  /** `(lon + 180) % 360 - 180`. */
  function WrapLongitude(lon: real): (w: real)
    ensures -180.0 <= w < 180.0
    ensures WholeTurns(lon - w)
  {
    var q := ((lon + 180.0) / 360.0).Floor;
    assert PyMod(lon + 180.0, 360.0) == lon + 180.0 - 360.0 * q as real;
    var w := PyMod(lon + 180.0, 360.0) - 180.0;
    assert (lon - w) / 360.0 == q as real;
    w
  }

  /**
   * The wrapped longitude is the only longitude in [-180, 180) a whole
   * number of turns from `lon`; in particular the wrap leaves such a
   * longitude unchanged and wrapping twice is wrapping once.
   */
  lemma WrapUnique(lon: real, v: real)
    requires -180.0 <= v < 180.0 && WholeTurns(lon - v)
    ensures v == WrapLongitude(lon)
  {
    var w := WrapLongitude(lon);
    var j, k := ((lon - v) / 360.0).Floor, ((lon - w) / 360.0).Floor;
    assert lon - v == 360.0 * j as real;
    assert lon - w == 360.0 * k as real;
    assert w - v == 360.0 * (j - k) as real;
    assert -360.0 < w - v < 360.0;
    assert j - k == 0;
  }

  lemma WrapFixesRange(lon: real)
    requires -180.0 <= lon < 180.0
    ensures WrapLongitude(lon) == lon
  {
    assert WholeTurns(lon - lon);
    WrapUnique(lon, lon);
  }

  lemma WrapIdempotent(lon: real)
    ensures WrapLongitude(WrapLongitude(lon)) == WrapLongitude(lon)
  {
    WrapFixesRange(WrapLongitude(lon));
  }
}
