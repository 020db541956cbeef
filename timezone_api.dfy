/**
 * The serverless time-zone lookup (api/timezone.py): a zone name guessed
 * from the longitude alone by fixed thresholds, with the parameter checks
 * of the handler.
 *
 * Python's `float()` on the `lon` text is the parameter `floatOf` (`None`
 * where it raises); its result may be infinite or not a number, which the
 * threshold comparisons treat as Python does.
 */
module TimezoneApi {
  import opened Wrappers

  /** A Python float: a finite value, an infinity, or NaN. */
  datatype PyFloat = Finite(v: real) | PlusInfinity | MinusInfinity | NotANumber

  /** Python's `x < c` for a finite constant `c`: false whenever `x` is NaN. */
  predicate Below(x: PyFloat, c: real) {
    match x
    case Finite(v) => v < c
    case PlusInfinity => false
    case MinusInfinity => true
    case NotANumber => false
  }

  /** The lower bounds of the buckets after the first, in increasing order. */
  const Thresholds: seq<real> := [-120.0, -90.0, -75.0, 0.0, 15.0, 30.0, 60.0, 120.0]

  /** The zone of each bucket, west to east. */
  const Zones: seq<string> := [
    "America/Los_Angeles", "America/Denver", "America/New_York", "Atlantic/Reykjavik",
    "Europe/London", "Europe/Paris", "Asia/Dubai", "Asia/Shanghai", "Pacific/Auckland"]

  /**
   * The bucket the if/elif chain picks: bucket `i` holds the finite
   * longitudes from threshold `i - 1` (inclusive) up to threshold `i`
   * (exclusive); minus infinity falls in the first bucket and plus infinity
   * and NaN in the last.
   */
  function Bucket(lon: PyFloat): (i: nat)
    ensures i < |Zones|
    ensures lon.Finite? ==> (i == 0 || Thresholds[i - 1] <= lon.v) && (i == |Thresholds| || lon.v < Thresholds[i])
    ensures lon.MinusInfinity? ==> i == 0
    ensures lon.PlusInfinity? || lon.NotANumber? ==> i == |Thresholds|
  {
    if Below(lon, -120.0) then 0
    else if Below(lon, -90.0) then 1
    else if Below(lon, -75.0) then 2
    else if Below(lon, 0.0) then 3
    else if Below(lon, 15.0) then 4
    else if Below(lon, 30.0) then 5
    else if Below(lon, 60.0) then 6
    else if Below(lon, 120.0) then 7
    else 8
  }

  /** The zone name for a longitude. */
  function ZoneFor(lon: PyFloat): string {
    Zones[Bucket(lon)]
  }

  /** A greater longitude never falls in an earlier bucket. */
  lemma BucketMonotone(a: real, b: real)
    requires a <= b
    ensures Bucket(Finite(a)) <= Bucket(Finite(b))
  {
  }

  /** The bucket is the one whose bounds hold the longitude: no other bucket does. */
  lemma BucketUnique(lon: real, i: nat)
    requires i < |Zones|
    requires (i == 0 || Thresholds[i - 1] <= lon) && (i == |Thresholds| || lon < Thresholds[i])
    ensures Bucket(Finite(lon)) == i
  {
  }

  /** The body of a response. */
  datatype Body = TzBody(tz: string) | MissingParameters | ConversionError(lon: string)

  /** A response: its status code, whether it allows any origin, and its body. */
  datatype Response = Response(status: int, anyOrigin: bool, body: Body)

  /** `query_params.get(key)`, where a missing key is `None`. */
  function Get(query: map<string, string>, key: string): Option<string> {
    if key in query then Some(query[key]) else None
  }

  /** `not value`: the parameter is missing or empty. */
  predicate Absent(value: Option<string>) {
    value.None? || value.value == ""
  }

  /**
   * `handler`, on the query parameters of the event (`None` when it has
   * none): 400 when `lat` or `lon` is missing or empty, 500 when `lon` is not
   * a float, and otherwise 200 with the zone of the longitude.
   */
  function Handler(params: Option<map<string, string>>, floatOf: string -> Option<PyFloat>): (r: Response)
    ensures var q := params.GetOr(map[]);
      var lat, lon := Get(q, "lat"), Get(q, "lon");
      && (r.status == 400 <==> Absent(lat) || Absent(lon))
      && (r.status == 500 <==> !Absent(lat) && !Absent(lon) && floatOf(lon.value).None?)
      && (r.status == 200 <==> !Absent(lat) && !Absent(lon) && floatOf(lon.value).Some?)
      && (r.status == 200 ==> r.anyOrigin && r.body == TzBody(ZoneFor(floatOf(lon.value).value)))
  {
    var q := params.GetOr(map[]);
    var lat, lon := Get(q, "lat"), Get(q, "lon");
    if Absent(lat) || Absent(lon) then Response(400, false, MissingParameters)
    else
      var f := floatOf(lon.value);
      if f.None? then Response(500, false, ConversionError(lon.value))
      else Response(200, true, TzBody(ZoneFor(f.value)))
  }

  /** The answer depends on `lat` only through its presence: any two non-empty latitudes give the same response. */
  lemma LatitudeIgnored(q: map<string, string>, lat1: string, lat2: string, floatOf: string -> Option<PyFloat>)
    requires lat1 != "" && lat2 != ""
    ensures Handler(Some(q["lat" := lat1]), floatOf) == Handler(Some(q["lat" := lat2]), floatOf)
  {
    assert Get(q["lat" := lat1], "lon") == Get(q["lat" := lat2], "lon");
  }
}
