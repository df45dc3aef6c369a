/** EXIF helpers: numeric tag values to reals, degrees/minutes/seconds to
    decimal degrees, GPS key selection and capture-time tag priority. */
module Exif {
  import opened Common

  type NonZero = d: int | d != 0 witness 1

  /** The numeric shapes a GPS component takes. `Rational` is anything with
      `numerator` and `denominator` attributes (Pillow's IFDRational, a
      Fraction, an int); `Pair` a `(num, den)` tuple; `Plain` a float;
      `Unconvertible` anything `float()` refuses. */
  datatype ExifNumber =
    | Rational(num: int, den: NonZero)
    | Pair(first: real, second: real)
    | Plain(x: real)
    | Unconvertible

  /** An entry of the GPS IFD: a tuple of numbers (the RATIONAL[3] latitude
      and longitude), an ASCII string (the hemisphere references) or a
      single number. */
  datatype GpsValue =
    | Components(parts: seq<ExifNumber>)
    | Text(s: string)
    | Scalar(n: ExifNumber)

  /** GPS IFD tags 1 to 4 (Exif 2.3, section 4.6.6). */
  const GpsLatitudeRef: int := 1
  const GpsLatitude: int := 2
  const GpsLongitudeRef: int := 3
  const GpsLongitude: int := 4

  /** `_to_float`: None stands for the exception `float()` raises. A pair
      with a zero denominator gives 0.0 instead of failing. */
  function ToReal(v: ExifNumber): (r: Option<real>)
    ensures r.None? <==> v.Unconvertible?
    ensures v.Rational? ==> r.Some? && r.value * (v.den as real) == v.num as real
    ensures v.Pair? && v.second != 0.0 ==> r.Some? && r.value * v.second == v.first
    ensures v.Pair? && v.second == 0.0 ==> r == Some(0.0)
    ensures v.Plain? ==> r == Some(v.x)
  {
    match v
    case Rational(n, d) => Some(n as real / d as real)
    case Pair(n, d) => Some(if d != 0.0 then n / d else 0.0)
    case Plain(x) => Some(x)
    case Unconvertible => None
  }

  /** The value denoted by degrees, minutes and seconds, before the sign. */
  function Magnitude(d: real, m: real, s: real): real
  {
    d + m / 60.0 + s / 3600.0
  }

  /** `ref in ("S", "W")`. */
  predicate IsSouthOrWest(ref: GpsValue)
  {
    ref == Text("S") || ref == Text("W")
  }

  /** The degrees, minutes and seconds of a GPS tuple, when its first three
      components all convert. */
  function DmsParts(dms: GpsValue): (r: Option<(real, real, real)>)
    ensures r.Some? <==> (dms.Components? && |dms.parts| >= 3 &&
      ToReal(dms.parts[0]).Some? && ToReal(dms.parts[1]).Some? && ToReal(dms.parts[2]).Some?)
    ensures r.Some? ==> r.value == (ToReal(dms.parts[0]).value, ToReal(dms.parts[1]).value,
                                    ToReal(dms.parts[2]).value)
  {
    if dms.Components? && |dms.parts| >= 3 then
      match (ToReal(dms.parts[0]), ToReal(dms.parts[1]), ToReal(dms.parts[2]))
      case (Some(d), Some(m), Some(s)) => Some((d, m, s))
      case _ => None
    else None
  }

  /** `_dms_to_decimal`: None when indexing or converting the tuple raises. */
  function DmsToDecimal(dms: GpsValue, ref: GpsValue): (r: Option<real>)
    ensures r.Some? <==> DmsParts(dms).Some?
    ensures r.Some? ==>
      var (d, m, s) := DmsParts(dms).value;
      (IsSouthOrWest(ref) ==> r.value == -Magnitude(d, m, s)) &&
      (!IsSouthOrWest(ref) ==> r.value == Magnitude(d, m, s))
  {
    match DmsParts(dms)
    case None => None
    case Some((d, m, s)) =>
      var dec := Magnitude(d, m, s);
      Some(if IsSouthOrWest(ref) then -dec else dec)
  }

  /** With non-negative components, a south or west reference gives a value
      at most zero and any other reference a value at least zero. */
  lemma HemisphereSign(dms: GpsValue, ref: GpsValue)
    requires DmsParts(dms).Some?
    requires DmsParts(dms).value.0 >= 0.0 && DmsParts(dms).value.1 >= 0.0 && DmsParts(dms).value.2 >= 0.0
    ensures IsSouthOrWest(ref) ==> DmsToDecimal(dms, ref).value <= 0.0
    ensures !IsSouthOrWest(ref) ==> DmsToDecimal(dms, ref).value >= 0.0
  {
  }

  /** The reference for a hemisphere tag, or the script's default. */
  function RefOr(gps: map<int, GpsValue>, tag: int, default: string): GpsValue
  {
    if tag in gps then gps[tag] else Text(default)
  }

  /** `extract_gps` on the GPS IFD: None when the block is empty, a tag is
      missing or a tuple does not convert. */
  function ExtractGps(gps: map<int, GpsValue>): (r: Option<Point>)
    ensures gps == map[] ==> r.None?
    ensures r.Some? <==> (GpsLatitude in gps && GpsLongitude in gps &&
      DmsParts(gps[GpsLatitude]).Some? && DmsParts(gps[GpsLongitude]).Some?)
    ensures r.Some? ==>
      r.value.lat == DmsToDecimal(gps[GpsLatitude], RefOr(gps, GpsLatitudeRef, "N")).value &&
      r.value.lon == DmsToDecimal(gps[GpsLongitude], RefOr(gps, GpsLongitudeRef, "E")).value
  {
    if |gps| == 0 then None
    else if GpsLatitude !in gps || GpsLongitude !in gps then None
    else
      match (DmsToDecimal(gps[GpsLatitude], RefOr(gps, GpsLatitudeRef, "N")),
             DmsToDecimal(gps[GpsLongitude], RefOr(gps, GpsLongitudeRef, "E")))
      case (Some(lat), Some(lon)) => Some(Point(lat, lon))
      case _ => None
  }

  /** Only GPS tags 1 to 4 matter: two blocks that agree on them give the
      same result, whatever else they hold. */
  lemma GpsUsesTagsOneToFour(gps: map<int, GpsValue>, other: map<int, GpsValue>)
    requires forall k | 1 <= k <= 4 :: (k in gps <==> k in other)
    requires forall k | 1 <= k <= 4 && k in gps :: gps[k] == other[k]
    ensures ExtractGps(gps) == ExtractGps(other)
  {
  }

  /** An absent latitude reference counts as north and an absent longitude
      reference as east: with non-negative components both coordinates are
      at least zero. */
  lemma MissingRefsDefaultNorthEast(gps: map<int, GpsValue>)
    requires GpsLatitudeRef !in gps && GpsLongitudeRef !in gps
    requires ExtractGps(gps).Some?
    requires DmsParts(gps[GpsLatitude]).value.0 >= 0.0 && DmsParts(gps[GpsLatitude]).value.1 >= 0.0
    requires DmsParts(gps[GpsLatitude]).value.2 >= 0.0
    requires DmsParts(gps[GpsLongitude]).value.0 >= 0.0 && DmsParts(gps[GpsLongitude]).value.1 >= 0.0
    requires DmsParts(gps[GpsLongitude]).value.2 >= 0.0
    ensures ExtractGps(gps).value.lat >= 0.0 && ExtractGps(gps).value.lon >= 0.0
  {
  }

  /** The home position 52°14'07.8"N 0°54'05.0"E decodes to 52.2355 exactly
      and to 0.9014 within 1e-4. */
  lemma HomeFixture()
    ensures DmsToDecimal(Components([Rational(52, 1), Rational(14, 1), Pair(78.0, 10.0)]), Text("N"))
            == Some(52.2355)
    ensures var lon := DmsToDecimal(Components([Rational(0, 1), Rational(54, 1), Plain(5.0)]), Text("E")).value;
            -0.0001 < lon - 0.9014 < 0.0001
  {
  }

  // ── Capture time ────────────────────────────────────────────────────────

  /** DateTimeOriginal, DateTimeDigitized, DateTime, in priority order. */
  const DatetimeTags: seq<int> := [36867, 36868, 306]

  /** The `strptime("%Y:%m:%d %H:%M:%S")` parser, as a partial function. */
  type Parser = string -> Option<Timestamp>

  /** A tag that is present, non-empty and parses. */
  predicate Readable(exif: map<int, string>, tag: int, parse: Parser)
  {
    tag in exif && exif[tag] != "" && parse(exif[tag]).Some?
  }

  /** The capture time that the tags `tags`, tried in order, yield. */
  function FirstParsed(exif: map<int, string>, tags: seq<int>, parse: Parser): Timestamp
  {
    if tags == [] then MinTimestamp
    else if Readable(exif, tags[0], parse) then parse(exif[tags[0]]).value
    else FirstParsed(exif, tags[1..], parse)
  }

  /** The result is the parse of the first readable tag, and the minimum
      sentinel when no tag is readable. */
  lemma {:induction false} FirstParsedIsFirstReadable(exif: map<int, string>, tags: seq<int>, parse: Parser)
    ensures (forall i | 0 <= i < |tags| :: !Readable(exif, tags[i], parse)) ==>
      FirstParsed(exif, tags, parse) == MinTimestamp
    ensures forall k | 0 <= k < |tags| && Readable(exif, tags[k], parse) &&
                      (forall i | 0 <= i < k :: !Readable(exif, tags[i], parse)) ::
      FirstParsed(exif, tags, parse) == parse(exif[tags[k]]).value
  {
    if tags != [] {
      FirstParsedIsFirstReadable(exif, tags[1..], parse);
      forall k | 0 <= k < |tags| && Readable(exif, tags[k], parse) &&
                (forall i | 0 <= i < k :: !Readable(exif, tags[i], parse))
        ensures FirstParsed(exif, tags, parse) == parse(exif[tags[k]]).value
      {
        if k > 0 {
          assert !Readable(exif, tags[0], parse);
          assert tags[1..][k - 1] == tags[k];
          assert forall i | 0 <= i < k - 1 :: tags[1..][i] == tags[i + 1];
        }
      }
      if forall i | 0 <= i < |tags| :: !Readable(exif, tags[i], parse) {
        assert forall i | 0 <= i < |tags| - 1 :: tags[1..][i] == tags[i + 1];
      }
    }
  }

  /** `extract_datetime`: try each tag in priority order, return the first
      value that parses, skip one that does not. */
  method ExtractDatetime(exif: map<int, string>, parse: Parser) returns (t: Timestamp)
    ensures t == FirstParsed(exif, DatetimeTags, parse)
  {
    for i := 0 to |DatetimeTags|
      invariant FirstParsed(exif, DatetimeTags[i..], parse) == FirstParsed(exif, DatetimeTags, parse)
    {
      var tag := DatetimeTags[i];
      assert DatetimeTags[i..][1..] == DatetimeTags[i + 1..];
      if tag in exif && exif[tag] != "" {
        match parse(exif[tag])
        case Some(v) => return v;
        case None =>
      }
    }
    assert DatetimeTags[|DatetimeTags|..] == [];
    t := MinTimestamp;
  }

  /** An original-time tag that does not parse is skipped in favour of the
      digitised time. */
  lemma UnparsableOriginalFallsBack(exif: map<int, string>, parse: Parser)
    requires 36867 in exif && parse(exif[36867]).None?
    requires 36868 in exif && exif[36868] != "" && parse(exif[36868]).Some?
    ensures FirstParsed(exif, DatetimeTags, parse) == parse(exif[36868]).value
  {
  }
}
