/** `extract_exif`: the capture date from the first EXIF date tag present,
    and GPS coordinates with their hemisphere signs. Opening the image and
    mapping tag ids to names are library calls; their outcome is the input. */
module Exif {
  import opened Wrappers
  import opened Timestamps

  /** Degrees, minutes and seconds of one GPS axis. */
  datatype Dms = Dms(degrees: real, minutes: real, seconds: real)

  /** The `GPSInfo` entry: absent, present but raising while it is read
      (not a mapping, a coordinate that is not a triple), or read. */
  datatype GpsBlock =
    | NoGps
    | MalformedGps
    | Gps(latitude: Option<Dms>, latitudeRef: Option<string>, longitude: Option<Dms>, longitudeRef: Option<string>)

  /** The named EXIF tags of an image: the text (`str(value)`) of each
      tag other than `GPSInfo`, and the `GPSInfo` entry. */
  datatype ExifData = ExifData(tags: map<string, string>, gps: GpsBlock)

  datatype Geo = Geo(lat: real, lon: real)

  /** `{"date": ..., "geo": ...}` */
  datatype ExifResult = ExifResult(date: Option<string>, geo: Option<Geo>)

  /** The date tags in the order they are tried (line 84). */
  const DateTags: seq<string> := ["DateTimeOriginal", "DateTimeDigitized", "DateTime"]

  /** Reference definition of the date choice: the first tag of `order`
      present in `tags` decides, whether or not its text parses. */
  function DateFromTags(tags: map<string, string>, order: seq<string>): Option<string>
  {
    if order == [] then None
    else if order[0] in tags then ConvertTimestamp(tags[order[0]])
    else DateFromTags(tags, order[1..])
  }

  /** Lines 84-91: the loop over the date tags, left at the first present one. */
  method SelectDate(tags: map<string, string>) returns (date: Option<string>)
    ensures date == DateFromTags(tags, DateTags)
  {
    date := None;
    var i := 0;
    while i < |DateTags|
      invariant 0 <= i <= |DateTags|
      invariant date == None
      invariant DateFromTags(tags, DateTags) == DateFromTags(tags, DateTags[i..])
    {
      var tag := DateTags[i];
      if tag in tags {
        date := ConvertTimestamp(tags[tag]);
        break;
      }
      assert DateTags[i..][1..] == DateTags[i + 1..];
      i := i + 1;
    }
  }

  /** The precedence the loop yields: DateTimeOriginal over DateTimeDigitized
      over DateTime; a present tag whose text does not parse gives no date,
      and the later tags are not consulted. */
  lemma DatePrecedence(tags: map<string, string>)
    ensures "DateTimeOriginal" in tags ==>
      DateFromTags(tags, DateTags) == ConvertTimestamp(tags["DateTimeOriginal"])
    ensures "DateTimeOriginal" !in tags && "DateTimeDigitized" in tags ==>
      DateFromTags(tags, DateTags) == ConvertTimestamp(tags["DateTimeDigitized"])
    ensures "DateTimeOriginal" !in tags && "DateTimeDigitized" !in tags && "DateTime" in tags ==>
      DateFromTags(tags, DateTags) == ConvertTimestamp(tags["DateTime"])
    ensures "DateTimeOriginal" !in tags && "DateTimeDigitized" !in tags && "DateTime" !in tags ==>
      DateFromTags(tags, DateTags) == None
  {
    FirstOfThree(tags, "DateTimeOriginal", "DateTimeDigitized", "DateTime");
  }

  lemma FirstOfThree(tags: map<string, string>, a: string, b: string, c: string)
    ensures DateFromTags(tags, [a, b, c]) ==
      if a in tags then ConvertTimestamp(tags[a])
      else if b in tags then ConvertTimestamp(tags[b])
      else if c in tags then ConvertTimestamp(tags[c])
      else None
  {
    assert [a, b, c][1..] == [b, c] && [b, c][1..] == [c] && [c][1..] == [];
    assert DateFromTags(tags, [c]) == if c in tags then ConvertTimestamp(tags[c]) else DateFromTags(tags, []);
    assert DateFromTags(tags, [b, c]) == if b in tags then ConvertTimestamp(tags[b]) else DateFromTags(tags, [c]);
  }

  /** An unparsable DateTimeOriginal hides a valid DateTime. */
  lemma UnparsableFirstTagHidesLaterOnes(tags: map<string, string>)
    requires "DateTimeOriginal" in tags && ParseExif(tags["DateTimeOriginal"]).None?
    ensures DateFromTags(tags, DateTags) == None
  {
    DatePrecedence(tags);
  }

  /** Decimal degrees: degrees + minutes / 60 + seconds / 3600. */
  function ToDegrees(v: Dms): real
  {
    v.degrees + v.minutes / 60.0 + v.seconds / 3600.0
  }

  /** Lines 107-110: one axis with its sign; `negative` is the reference
      letter that flips it ('S' or 'W'), and an absent reference counts as
      the positive hemisphere. */
  function Axis(v: Dms, reference: Option<string>, negative: string): (r: real)
    ensures r == ToDegrees(v) || r == -ToDegrees(v)
    ensures ToDegrees(v) != 0.0 ==> (r == -ToDegrees(v) <==> reference == Some(negative))
    ensures ToDegrees(v) > 0.0 ==> (r < 0.0 <==> reference == Some(negative))
  {
    if reference == Some(negative) then -ToDegrees(v) else ToDegrees(v)
  }

  /** Lines 94-111 without the rounding to six decimals. */
  function ExtractGeo(gps: GpsBlock): (r: Option<Geo>)
    ensures r.Some? <==> gps.Gps? && gps.latitude.Some? && gps.longitude.Some?
  {
    match gps
    case Gps(Some(lat), latRef, Some(lon), lonRef) => Some(Geo(Axis(lat, latRef, "S"), Axis(lon, lonRef, "W")))
    case _ => None
  }

  /** The hemisphere rule: for a non-negative reading, the latitude is below
      zero only for 'S' and the longitude only for 'W'; the magnitude is
      the reading in decimal degrees either way. */
  lemma HemisphereSigns(gps: GpsBlock)
    requires gps.Gps? && gps.latitude.Some? && gps.longitude.Some?
    requires ToDegrees(gps.latitude.value) > 0.0 && ToDegrees(gps.longitude.value) > 0.0
    ensures ExtractGeo(gps).Some?
    ensures ExtractGeo(gps).value.lat == ToDegrees(gps.latitude.value)
      || ExtractGeo(gps).value.lat == -ToDegrees(gps.latitude.value)
    ensures ExtractGeo(gps).value.lon == ToDegrees(gps.longitude.value)
      || ExtractGeo(gps).value.lon == -ToDegrees(gps.longitude.value)
    ensures ExtractGeo(gps).value.lat < 0.0 <==> gps.latitudeRef == Some("S")
    ensures ExtractGeo(gps).value.lon < 0.0 <==> gps.longitudeRef == Some("W")
    ensures gps.latitudeRef.None? ==> ExtractGeo(gps).value.lat == ToDegrees(gps.latitude.value)
    ensures gps.longitudeRef.None? ==> ExtractGeo(gps).value.lon == ToDegrees(gps.longitude.value)
  {
  }

  /** 40°26'46" N, 79°58'56" W: within half a millionth of a degree of
      (40.446111, -79.982222), the values rounded to six decimals. */
  lemma PittsburghExample()
    ensures var g := ExtractGeo(Gps(Some(Dms(40.0, 26.0, 46.0)), Some("N"), Some(Dms(79.0, 58.0, 56.0)), Some("W")));
      && g.Some?
      && -0.0000005 < g.value.lat - 40.446111 < 0.0000005
      && -0.0000005 < g.value.lon + 79.982222 < 0.0000005
  {
    assert ToDegrees(Dms(40.0, 26.0, 46.0)) == 145606.0 / 3600.0;
    assert ToDegrees(Dms(79.0, 58.0, 56.0)) == 287936.0 / 3600.0;
  }

  /** The dictionary `extract_exif` returns for an image's EXIF block. */
  function ExifFields(exif: Option<ExifData>): ExifResult
  {
    if exif.None? then ExifResult(None, None)
    else ExifResult(DateFromTags(exif.value.tags, DateTags), ExtractGeo(exif.value.gps))
  }

  /** A date found in the tags is a 19-character ISO text, so it is never
      the empty (falsy) string that would send the caller to the file time. */
  lemma {:induction false} TagDateIsIso(tags: map<string, string>, order: seq<string>)
    ensures DateFromTags(tags, order).Some? ==> |DateFromTags(tags, order).value| == 19
  {
    if order != [] && order[0] !in tags {
      TagDateIsIso(tags, order[1..]);
    }
  }

  /** Lines 68-117. `None` stands for an image that cannot be opened, has no
      EXIF block or an empty one: every such case returns both keys as `None`.
      A GPS block that raises loses the coordinates but keeps the date
      already found, since the date is stored before the GPS is read. */
  method ExtractExif(exif: Option<ExifData>) returns (result: ExifResult)
    ensures exif.None? ==> result == ExifResult(None, None)
    ensures exif.Some? ==> result.date == DateFromTags(exif.value.tags, DateTags)
    ensures exif.Some? ==> result.geo == ExtractGeo(exif.value.gps)
    ensures result == ExifFields(exif)
  {
    result := ExifResult(None, None);
    if exif.None? {
      return;
    }
    var date := SelectDate(exif.value.tags);
    result := result.(date := date);
    result := result.(geo := ExtractGeo(exif.value.gps));
  }
}
