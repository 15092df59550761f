/** EXIF timestamps: `datetime.strptime(text, '%Y:%m:%d %H:%M:%S')`
    followed by `isoformat()`. The parser follows CPython's `_strptime`:
    each directive is a regular expression, the space in the format
    matches one or more whitespace characters, the whole text must be
    consumed, and the resulting fields must form a valid `datetime`. */
module Timestamps {
  import opened Wrappers
  import opened Strings

  datatype DateTime = DateTime(year: int, month: int, day: int, hour: int, minute: int, second: int)

  /** Gregorian leap years. */
  predicate IsLeapYear(y: int)
  {
    y % 4 == 0 && (y % 100 != 0 || y % 400 == 0)
  }

  function DaysInMonth(y: int, m: int): (r: int)
    requires 1 <= m <= 12
    ensures 28 <= r <= 31
    ensures r == 29 <==> m == 2 && IsLeapYear(y)
  {
    if m == 2 then (if IsLeapYear(y) then 29 else 28)
    else if m == 4 || m == 6 || m == 9 || m == 11 then 30
    else 31
  }

  /** The ranges `datetime(...)` accepts (seconds 60 and 61 are refused). */
  predicate Valid(dt: DateTime)
  {
    && 1 <= dt.year <= 9999
    && 1 <= dt.month <= 12
    && 1 <= dt.day <= DaysInMonth(dt.year, dt.month)
    && 0 <= dt.hour <= 23
    && 0 <= dt.minute <= 59
    && 0 <= dt.second <= 59
  }

  /** The field ranges the two-digit forms of the directives admit: what
      the canonical text of a date-time can hold. */
  predicate WellFormed(dt: DateTime)
  {
    && 0 <= dt.year <= 9999
    && 1 <= dt.month <= 12
    && 1 <= dt.day <= 31
    && 0 <= dt.hour <= 23
    && 0 <= dt.minute <= 59
    && 0 <= dt.second <= 61
  }

  /** Chronological order of date-times. */
  predicate Before(a: DateTime, b: DateTime)
  {
    if a.year != b.year then a.year < b.year
    else if a.month != b.month then a.month < b.month
    else if a.day != b.day then a.day < b.day
    else if a.hour != b.hour then a.hour < b.hour
    else if a.minute != b.minute then a.minute < b.minute
    else a.second < b.second
  }

  predicate IsDigit(c: char) { '0' <= c <= '9' }

  function DigitValue(c: char): (r: int)
    requires IsDigit(c)
    ensures 0 <= r <= 9
  {
    c as int - '0' as int
  }

  predicate IsColon(c: char) { c == ':' }

  /** Python's `\s` on `str`: the characters for which `str.isspace()` holds. */
  predicate IsSpace(c: char)
  {
    var n := c as int;
    || n == 0x20 || 0x09 <= n <= 0x0D || 0x1C <= n <= 0x1F || n == 0x85 || n == 0xA0
    || n == 0x1680 || 0x2000 <= n <= 0x200A || n == 0x2028 || n == 0x2029
    || n == 0x202F || n == 0x205F || n == 0x3000
  }

  predicate NotSpace(c: char) { !IsSpace(c) }

  /** Position of the first character satisfying `p`, or `|s|` when none does. */
  function Find(s: string, p: char -> bool): (r: nat)
    ensures r <= |s|
    ensures r < |s| ==> p(s[r])
    ensures forall k :: 0 <= k < r ==> !p(s[k])
  {
    if s == [] then 0 else if p(s[0]) then 0 else 1 + Find(s[1..], p)
  }

  predicate TwoDigits(t: string)
  {
    |t| == 2 && IsDigit(t[0]) && IsDigit(t[1])
  }

  /** Value of a one- or two-character field; a leading space counts as zero. */
  function FieldValue(t: string): (r: int)
    requires |t| == 1 ==> IsDigit(t[0])
    requires |t| == 2 ==> (t[0] == ' ' || IsDigit(t[0])) && IsDigit(t[1])
    requires 1 <= |t| <= 2
    ensures 0 <= r <= 99
  {
    if |t| == 1 then DigitValue(t[0])
    else (if t[0] == ' ' then 0 else DigitValue(t[0])) * 10 + DigitValue(t[1])
  }

  /** `%m`: 1[0-2]|0[1-9]|[1-9] */
  predicate MonthText(t: string)
  {
    (|t| == 1 && '1' <= t[0] <= '9') || (TwoDigits(t) && 1 <= FieldValue(t) <= 12)
  }

  /** `%d`: 3[01]|[12]\d|0[1-9]|[1-9]| [1-9] */
  predicate DayText(t: string)
  {
    || (|t| == 1 && '1' <= t[0] <= '9')
    || (|t| == 2 && t[0] == ' ' && '1' <= t[1] <= '9')
    || (TwoDigits(t) && 1 <= FieldValue(t) <= 31)
  }

  /** `%H`: 2[0-3]|[0-1]\d|\d */
  predicate HourText(t: string)
  {
    (|t| == 1 && IsDigit(t[0])) || (TwoDigits(t) && FieldValue(t) <= 23)
  }

  /** `%M`: [0-5]\d|\d */
  predicate MinuteText(t: string)
  {
    (|t| == 1 && IsDigit(t[0])) || (TwoDigits(t) && FieldValue(t) <= 59)
  }

  /** `%S`: 6[0-1]|[0-5]\d|\d */
  predicate SecondText(t: string)
  {
    (|t| == 1 && IsDigit(t[0])) || (TwoDigits(t) && FieldValue(t) <= 61)
  }

  function YearValue(t: string): (r: int)
    requires |t| == 4 && forall i :: 0 <= i < 4 ==> IsDigit(t[i])
    ensures 0 <= r <= 9999
  {
    DigitValue(t[0]) * 1000 + DigitValue(t[1]) * 100 + DigitValue(t[2]) * 10 + DigitValue(t[3])
  }

  /** `datetime.strptime(s, '%Y:%m:%d %H:%M:%S')`, `None` where it raises.
      Every field but the year and the seconds is followed by a
      non-digit delimiter, so the text before the next delimiter is the
      field; the seconds run to the end of the input. */
  function ParseExif(s: string): (r: Option<DateTime>)
    ensures r.Some? ==> Valid(r.value)
  {
    if |s| < 5 || !(forall i :: 0 <= i < 4 ==> IsDigit(s[i])) || s[4] != ':' then None
    else ParseMonth(DateTime(YearValue(s[..4]), 0, 0, 0, 0, 0), s[5..])
  }

  /** `%m` and the ':' after it. */
  function ParseMonth(dt: DateTime, s: string): (r: Option<DateTime>)
    ensures r.Some? ==> Valid(r.value)
  {
    var i := Find(s, IsColon);
    if i == |s| || !MonthText(s[..i]) then None
    else ParseDay(dt.(month := FieldValue(s[..i])), s[i + 1..])
  }

  /** `%d`; its " [1-9]" form begins with a space. */
  function ParseDay(dt: DateTime, s: string): (r: Option<DateTime>)
    ensures r.Some? ==> Valid(r.value)
  {
    var j := if |s| > 0 && s[0] == ' ' then (if |s| >= 2 then 2 else 1) else Find(s, IsSpace);
    if !DayText(s[..j]) then None
    else ParseSpace(dt.(day := FieldValue(s[..j])), s[j..])
  }

  /** The format's space: `\s+`. */
  function ParseSpace(dt: DateTime, s: string): (r: Option<DateTime>)
    ensures r.Some? ==> Valid(r.value)
  {
    var w := Find(s, NotSpace);
    if w == 0 then None else ParseHour(dt, s[w..])
  }

  /** `%H` and the ':' after it. */
  function ParseHour(dt: DateTime, s: string): (r: Option<DateTime>)
    ensures r.Some? ==> Valid(r.value)
  {
    var k := Find(s, IsColon);
    if k == |s| || !HourText(s[..k]) then None
    else ParseMinute(dt.(hour := FieldValue(s[..k])), s[k + 1..])
  }

  /** `%M` and the ':' after it. */
  function ParseMinute(dt: DateTime, s: string): (r: Option<DateTime>)
    ensures r.Some? ==> Valid(r.value)
  {
    var l := Find(s, IsColon);
    if l == |s| || !MinuteText(s[..l]) then None
    else ParseSecond(dt.(minute := FieldValue(s[..l])), s[l + 1..])
  }

  /** `%S`, which must end the input ("unconverted data remains"
      otherwise), then the range checks of the `datetime` constructor. */
  function ParseSecond(dt: DateTime, s: string): (r: Option<DateTime>)
    ensures r.Some? ==> Valid(r.value)
  {
    if !SecondText(s) then None
    else
      var full := dt.(second := FieldValue(s));
      if Valid(full) then Some(full) else None
  }

  function DigitChar(n: int): (c: char)
    requires 0 <= n <= 9
    ensures IsDigit(c) && DigitValue(c) == n
  {
    ('0' as int + n) as char
  }

  /** `%02d` */
  function Pad2(n: int): (r: string)
    requires 0 <= n <= 99
    ensures TwoDigits(r) && FieldValue(r) == n
  {
    [DigitChar(n / 10), DigitChar(n % 10)]
  }

  /** `%04d` */
  function Pad4(n: int): (r: string)
    requires 0 <= n <= 9999
    ensures |r| == 4 && (forall i :: 0 <= i < 4 ==> IsDigit(r[i])) && YearValue(r) == n
  {
    Pad2(n / 100) + Pad2(n % 100)
  }

  /** `datetime.isoformat()` for a value without microseconds or time zone. */
  function IsoFormat(dt: DateTime): (r: string)
    requires Valid(dt)
    ensures |r| == 19 && r[4] == '-' && r[7] == '-' && r[10] == 'T' && r[13] == ':' && r[16] == ':'
  {
    Pad4(dt.year) + "-" + Pad2(dt.month) + "-" + Pad2(dt.day) + "T"
      + Pad2(dt.hour) + ":" + Pad2(dt.minute) + ":" + Pad2(dt.second)
  }

  /** The canonical EXIF text `YYYY:MM:DD HH:MM:SS` of a date-time. */
  function ExifFormat(dt: DateTime): (r: string)
    requires WellFormed(dt)
    ensures |r| == 19
  {
    Pad4(dt.year) + ":" + Pad2(dt.month) + ":" + Pad2(dt.day) + " "
      + Pad2(dt.hour) + ":" + Pad2(dt.minute) + ":" + Pad2(dt.second)
  }

  /** Lines 86-90 of the generator: parse, re-emit as ISO-8601, and give no
      date instead of an error when parsing fails.  A date is the ISO text
      of a calendar date-time, and the canonical text of a date-time gives
      exactly that date-time's ISO text, or nothing when it is no calendar
      date-time. */
  function ConvertTimestamp(s: string): (r: Option<string>)
    ensures r.Some? <==> ParseExif(s).Some?
    ensures r.Some? ==> r.value == IsoFormat(ParseExif(s).value)
    ensures r.Some? ==> |r.value| == 19 && exists dt :: Valid(dt) && r.value == IsoFormat(dt)
    ensures forall dt {:trigger ExifFormat(dt)} :: WellFormed(dt) && s == ExifFormat(dt) ==>
      r == if Valid(dt) then Some(IsoFormat(dt)) else None
  {
    CanonicalParses(s);
    match ParseExif(s)
    case None => None
    case Some(dt) => Some(IsoFormat(dt))
  }

  /** `Find` stops at the first character satisfying `p`. */
  lemma {:induction false} FindPast(t: string, c: char, rest: string, p: char -> bool)
    requires forall i :: 0 <= i < |t| ==> !p(t[i])
    requires p(c)
    ensures Find(t + [c] + rest, p) == |t|
  {
    if t != [] {
      assert (t + [c] + rest)[1..] == t[1..] + [c] + rest;
      FindPast(t[1..], c, rest, p);
    }
  }

  /** A canonical text parses back to its date-time exactly when that is a
      calendar date-time: the calendar check is all that refuses it. */
  lemma ParseExifFormat(dt: DateTime)
    requires WellFormed(dt)
    ensures ParseExif(ExifFormat(dt)) == if Valid(dt) then Some(dt) else None
  {
    var y, mo, d, h, mi, se := Pad4(dt.year), Pad2(dt.month), Pad2(dt.day), Pad2(dt.hour), Pad2(dt.minute), Pad2(dt.second);
    var s := ExifFormat(dt);
    var s4 := h + ":" + (mi + ":" + se);
    var s3 := [' '] + s4;
    var s2 := d + s3;
    var s1 := mo + ":" + s2;
    assert s == y + ":" + s1;
    assert s[..4] == y && s[4] == ':' && s[5..] == s1;
    ParseMonthFormat(DateTime(dt.year, 0, 0, 0, 0, 0), dt, s1);
  }

  /** `ParseExifFormat` for every date-time whose canonical text is `s`. */
  lemma CanonicalParses(s: string)
    ensures forall dt {:trigger ExifFormat(dt)} :: WellFormed(dt) && s == ExifFormat(dt) ==>
      ParseExif(s) == if Valid(dt) then Some(dt) else None
  {
    forall dt | WellFormed(dt) && s == ExifFormat(dt)
      ensures ParseExif(s) == if Valid(dt) then Some(dt) else None
    {
      ParseExifFormat(dt);
    }
  }

  lemma ParseMonthFormat(part: DateTime, dt: DateTime, s: string)
    requires WellFormed(dt) && part == DateTime(dt.year, 0, 0, 0, 0, 0)
    requires s == Pad2(dt.month) + ":" + (Pad2(dt.day) + ([' '] + (Pad2(dt.hour) + ":" + (Pad2(dt.minute) + ":" + Pad2(dt.second)))))
    ensures ParseMonth(part, s) == if Valid(dt) then Some(dt) else None
  {
    var mo := Pad2(dt.month);
    var rest := Pad2(dt.day) + ([' '] + (Pad2(dt.hour) + ":" + (Pad2(dt.minute) + ":" + Pad2(dt.second))));
    FindPast(mo, ':', rest, IsColon);
    assert s[..2] == mo && s[3..] == rest;
    ParseDayFormat(part.(month := dt.month), dt, rest);
  }

  lemma ParseDayFormat(part: DateTime, dt: DateTime, s: string)
    requires WellFormed(dt) && part == DateTime(dt.year, dt.month, 0, 0, 0, 0)
    requires s == Pad2(dt.day) + ([' '] + (Pad2(dt.hour) + ":" + (Pad2(dt.minute) + ":" + Pad2(dt.second))))
    ensures ParseDay(part, s) == if Valid(dt) then Some(dt) else None
  {
    var d := Pad2(dt.day);
    var rest := [' '] + (Pad2(dt.hour) + ":" + (Pad2(dt.minute) + ":" + Pad2(dt.second)));
    assert s == d + [' '] + rest[1..];
    FindPast(d, ' ', rest[1..], IsSpace);
    assert s[..2] == d && s[2..] == rest;
    ParseSpaceFormat(part.(day := dt.day), dt, rest);
  }

  lemma ParseSpaceFormat(part: DateTime, dt: DateTime, s: string)
    requires WellFormed(dt) && part == DateTime(dt.year, dt.month, dt.day, 0, 0, 0)
    requires s == [' '] + (Pad2(dt.hour) + ":" + (Pad2(dt.minute) + ":" + Pad2(dt.second)))
    ensures ParseSpace(part, s) == if Valid(dt) then Some(dt) else None
  {
    var rest := Pad2(dt.hour) + ":" + (Pad2(dt.minute) + ":" + Pad2(dt.second));
    FindPast([' '], rest[0], rest[1..], NotSpace);
    assert [' '] + [rest[0]] + rest[1..] == s;
    assert s[1..] == rest;
    ParseHourFormat(part, dt, rest);
  }

  lemma ParseHourFormat(part: DateTime, dt: DateTime, s: string)
    requires WellFormed(dt) && part == DateTime(dt.year, dt.month, dt.day, 0, 0, 0)
    requires s == Pad2(dt.hour) + ":" + (Pad2(dt.minute) + ":" + Pad2(dt.second))
    ensures ParseHour(part, s) == if Valid(dt) then Some(dt) else None
  {
    var h := Pad2(dt.hour);
    var rest := Pad2(dt.minute) + ":" + Pad2(dt.second);
    FindPast(h, ':', rest, IsColon);
    assert s[..2] == h && s[3..] == rest;
    var p := part.(hour := dt.hour);
    FindPast(Pad2(dt.minute), ':', Pad2(dt.second), IsColon);
    assert rest[..2] == Pad2(dt.minute) && rest[3..] == Pad2(dt.second);
    assert p.(minute := dt.minute).(second := dt.second) == dt;
  }

  /** Lines 87-88 on the canonical text: the date-time's own ISO form. */
  lemma ConvertCanonical(dt: DateTime)
    requires Valid(dt)
    ensures ConvertTimestamp(ExifFormat(dt)) == Some(IsoFormat(dt))
  {
    ParseExifFormat(dt);
  }

  /** The ISO text keeps every character of the canonical EXIF text except
      the two date separators, which become '-', and the space, which becomes 'T'. */
  lemma IsoKeepsFields(dt: DateTime)
    requires Valid(dt)
    ensures forall i :: 0 <= i < 19 ==>
      IsoFormat(dt)[i] == (if i == 4 || i == 7 then '-' else if i == 10 then 'T' else ExifFormat(dt)[i])
  {
    var y, mo, d, h, mi, se := Pad4(dt.year), Pad2(dt.month), Pad2(dt.day), Pad2(dt.hour), Pad2(dt.minute), Pad2(dt.second);
    var tail := h + ":" + mi + ":" + se;
    var e := y + ":" + mo + ":" + d + " " + tail;
    var iso := y + "-" + mo + "-" + d + "T" + tail;
    assert e == ExifFormat(dt) && iso == IsoFormat(dt);
    forall i | 0 <= i < 19
      ensures iso[i] == (if i == 4 || i == 7 then '-' else if i == 10 then 'T' else e[i])
    {
      if i < 4 {
        assert iso[i] == y[i] == e[i];
      } else if 4 < i < 7 {
        assert iso[i] == mo[i - 5] == e[i];
      } else if 7 < i < 10 {
        assert iso[i] == d[i - 8] == e[i];
      } else if i > 10 {
        assert iso[i] == tail[i - 11] == e[i];
      }
    }
  }

  lemma LessTwoDigits(a: int, b: int)
    requires 0 <= a <= 99 && 0 <= b <= 99
    ensures Less(Pad2(a), Pad2(b)) <==> a < b
    ensures Pad2(a) == Pad2(b) <==> a == b
  {
    var p, q := Pad2(a), Pad2(b);
    assert p[1..] == [p[1]] && q[1..] == [q[1]];
    assert p[1..][1..] == [] && q[1..][1..] == [];
    assert p[0] as int == 48 + a / 10 && q[0] as int == 48 + b / 10;
    assert p[1] as int == 48 + a % 10 && q[1] as int == 48 + b % 10;
    assert a == 10 * (a / 10) + a % 10 && b == 10 * (b / 10) + b % 10;
    assert Less(p[1..], q[1..]) <==> p[1] < q[1] by {
      assert Less(p[1..][1..], q[1..][1..]) == false;
    }
    assert Less(p, q) <==> p[0] < q[0] || (p[0] == q[0] && Less(p[1..], q[1..]));
  }

  lemma LessFourDigits(a: int, b: int)
    requires 0 <= a <= 9999 && 0 <= b <= 9999
    ensures Less(Pad4(a), Pad4(b)) <==> a < b
    ensures Pad4(a) == Pad4(b) <==> a == b
  {
    LessConcat(Pad2(a / 100), Pad2(a % 100), Pad2(b / 100), Pad2(b % 100));
    LessTwoDigits(a / 100, b / 100);
    LessTwoDigits(a % 100, b % 100);
    if Pad4(a) == Pad4(b) {
      assert Pad4(a)[..2] == Pad2(a / 100) && Pad4(b)[..2] == Pad2(b / 100);
      assert Pad4(a)[2..] == Pad2(a % 100) && Pad4(b)[2..] == Pad2(b % 100);
    }
  }

  /** Comparing two texts that agree on a separator after equally long heads. */
  lemma LessAcross(x1: string, r1: string, x2: string, r2: string, sep: char)
    requires |x1| == |x2|
    ensures Less(x1 + [sep] + r1, x2 + [sep] + r2) <==> Less(x1, x2) || (x1 == x2 && Less(r1, r2))
    ensures x1 + [sep] + r1 == x2 + [sep] + r2 <==> x1 == x2 && r1 == r2
  {
    assert x1 + [sep] + r1 == x1 + ([sep] + r1) && x2 + [sep] + r2 == x2 + ([sep] + r2);
    LessConcat(x1, [sep] + r1, x2, [sep] + r2);
    LessConcat([sep], r1, [sep], r2);
    if x1 + [sep] + r1 == x2 + [sep] + r2 {
      assert (x1 + [sep] + r1)[..|x1|] == x1 && (x2 + [sep] + r2)[..|x2|] == x2;
      assert (x1 + [sep] + r1)[|x1| + 1..] == r1 && (x2 + [sep] + r2)[|x2| + 1..] == r2;
    }
  }

  function IsoFromMinute(dt: DateTime): string
    requires Valid(dt)
  {
    Pad2(dt.minute) + ":" + Pad2(dt.second)
  }

  function IsoFromHour(dt: DateTime): string
    requires Valid(dt)
  {
    Pad2(dt.hour) + ":" + IsoFromMinute(dt)
  }

  function IsoFromDay(dt: DateTime): string
    requires Valid(dt)
  {
    Pad2(dt.day) + "T" + IsoFromHour(dt)
  }

  function IsoFromMonth(dt: DateTime): string
    requires Valid(dt)
  {
    Pad2(dt.month) + "-" + IsoFromDay(dt)
  }

  /** ISO-8601 text order is chronological order, so sorting records by
      their `date` strings sorts EXIF-dated photos by time. */
  lemma IsoOrderIsChronological(a: DateTime, b: DateTime)
    requires Valid(a) && Valid(b)
    ensures Less(IsoFormat(a), IsoFormat(b)) <==> Before(a, b)
    ensures IsoFormat(a) == IsoFormat(b) <==> a == b
  {
    assert IsoFormat(a) == Pad4(a.year) + "-" + IsoFromMonth(a);
    assert IsoFormat(b) == Pad4(b.year) + "-" + IsoFromMonth(b);
    LessFourDigits(a.year, b.year);
    LessAcross(Pad4(a.year), IsoFromMonth(a), Pad4(b.year), IsoFromMonth(b), '-');
    LessTwoDigits(a.month, b.month);
    LessAcross(Pad2(a.month), IsoFromDay(a), Pad2(b.month), IsoFromDay(b), '-');
    LessTwoDigits(a.day, b.day);
    LessAcross(Pad2(a.day), IsoFromHour(a), Pad2(b.day), IsoFromHour(b), 'T');
    LessTwoDigits(a.hour, b.hour);
    LessAcross(Pad2(a.hour), IsoFromMinute(a), Pad2(b.hour), IsoFromMinute(b), ':');
    LessTwoDigits(a.minute, b.minute);
    LessTwoDigits(a.second, b.second);
    LessAcross(Pad2(a.minute), Pad2(a.second), Pad2(b.minute), Pad2(b.second), ':');
  }

  /** February 29th parses in a leap year. */
  lemma LeapDayAccepted(text: string)
    requires text == "2024:02:29 23:59:59"
    ensures ConvertTimestamp(text) == Some("2024-02-29T23:59:59")
  {
    var dt := DateTime(2024, 2, 29, 23, 59, 59);
    var iso := "2024-02-29T23:59:59";
    LeapDayExifText(dt, text);
    LeapDayIsoText(dt, iso);
    ConvertCanonical(dt);
  }

  lemma LeapDayExifText(dt: DateTime, text: string)
    requires dt == DateTime(2024, 2, 29, 23, 59, 59) && text == "2024:02:29 23:59:59"
    ensures WellFormed(dt) && ExifFormat(dt) == text
  {
    assert Pad2(20) == "20" && Pad2(24) == "24";
    assert Pad4(2024) == "2024";
    assert Pad2(2) == "02" && Pad2(29) == "29" && Pad2(23) == "23" && Pad2(59) == "59";
    assert "2024" + ":" + "02" == "2024:02";
    assert "2024:02" + ":" + "29" == "2024:02:29";
    assert "2024:02:29" + " " + "23" == "2024:02:29 23";
    assert "2024:02:29 23" + ":" + "59" == "2024:02:29 23:59";
    assert "2024:02:29 23:59" + ":" + "59" == text;
  }

  lemma LeapDayIsoText(dt: DateTime, iso: string)
    requires dt == DateTime(2024, 2, 29, 23, 59, 59) && iso == "2024-02-29T23:59:59"
    ensures Valid(dt) && IsoFormat(dt) == iso
  {
    assert Pad2(20) == "20" && Pad2(24) == "24" && Pad2(2) == "02" && Pad2(29) == "29";
    assert Pad2(23) == "23" && Pad2(59) == "59";
  }

  /** February 29th of a common year gives no date rather than an error. */
  lemma LeapDayRefused(text: string)
    requires text == "2021:02:29 10:00:00"
    ensures ConvertTimestamp(text) == None
  {
    var dt := DateTime(2021, 2, 29, 10, 0, 0);
    CommonYearText(dt, text);
    ParseExifFormat(dt);
  }

  lemma CommonYearText(dt: DateTime, text: string)
    requires dt == DateTime(2021, 2, 29, 10, 0, 0) && text == "2021:02:29 10:00:00"
    ensures WellFormed(dt) && !Valid(dt) && ExifFormat(dt) == text
  {
    assert Pad2(20) == "20" && Pad2(21) == "21";
    assert Pad4(2021) == "2021";
    assert Pad2(2) == "02" && Pad2(29) == "29" && Pad2(10) == "10" && Pad2(0) == "00";
    assert "2021" + ":" + "02" == "2021:02";
    assert "2021:02" + ":" + "29" == "2021:02:29";
    assert "2021:02:29" + " " + "10" == "2021:02:29 10";
    assert "2021:02:29 10" + ":" + "00" == "2021:02:29 10:00";
    assert "2021:02:29 10:00" + ":" + "00" == text;
  }
}
