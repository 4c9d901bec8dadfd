/**
 The clock readings the program formats: a calendar date and a date with a
 time of day, and their `strftime` renderings `%Y%m%d`, `%Y-%m-%d` and
 `%Y-%m-%d %H:%M`. The current time is always passed in as one of these values.
 */
module Calendar {
  import Text

  datatype Date = Date(year: int, month: int, day: int)

  /** Four-digit years, as `%Y` renders them without ambiguity. */
  predicate ValidDate(d: Date) {
    1000 <= d.year <= 9999 && 1 <= d.month <= 12 && 1 <= d.day <= 31
  }

  datatype DateTime = DateTime(date: Date, hour: int, minute: int)

  predicate ValidDateTime(t: DateTime) {
    ValidDate(t.date) && 0 <= t.hour < 24 && 0 <= t.minute < 60
  }

  /** A field rendered with zero padding to a fixed width, as `%Y`, `%m`, `%d`, `%H` and `%M` do. */
  function Field(n: nat, width: nat): (r: string)
    requires 1 <= width && n < Text.Pow10(width)
    ensures |r| == width && Text.AllDigits(r) && Text.ParseNat(r) == n
  {
    Text.NatToStringLength(n, width);
    Text.ZeroPadded(n, width)
  }

  /** `strftime('%Y%m%d')`. */
  function CompactDate(d: Date): (r: string)
    requires ValidDate(d)
    ensures |r| == 8 && Text.AllDigits(r)
  {
    var y, m, dd := Field(d.year, 4), Field(d.month, 2), Field(d.day, 2);
    Text.AllDigitsAppend(y, m);
    Text.AllDigitsAppend(y + m, dd);
    y + m + dd
  }

  /** `strftime('%Y-%m-%d')`; also the date part of JavaScript's `toISOString()`. */
  function IsoDate(d: Date): (r: string)
    requires ValidDate(d)
    ensures |r| == 10 && r[4] == '-' && r[7] == '-'
  {
    var y, m, dd := Field(d.year, 4), Field(d.month, 2), Field(d.day, 2);
    DashedSlices(y, m, dd);
    y + "-" + m + "-" + dd
  }

  /** `strftime('%Y-%m-%d %H:%M')`. */
  function IsoMinutes(t: DateTime): (r: string)
    requires ValidDateTime(t)
    ensures |r| == 16 && r[..10] == IsoDate(t.date)
    ensures r[10] == ' ' && r[13] == ':'
    ensures Text.AllDigits(r[11..13]) && Text.ParseNat(r[11..13]) == t.hour
    ensures Text.AllDigits(r[14..]) && Text.ParseNat(r[14..]) == t.minute
  {
    var date := IsoDate(t.date);
    var hh := Field(t.hour, 2);
    var mm := Field(t.minute, 2);
    TimeSlices(date, hh, mm);
    date + ([' '] + hh + [':'] + mm)
  }

  lemma TimeSlices(date: string, hh: string, mm: string)
    requires |date| == 10 && |hh| == 2 && |mm| == 2
    ensures var s := date + ([' '] + hh + [':'] + mm);
      && |s| == 16 && s[..10] == date && s[10] == ' ' && s[13] == ':'
      && s[11..13] == hh && s[14..] == mm
  {
    var tail := [' '] + hh + [':'] + mm;
    assert tail[1..3] == hh && tail[4..] == mm;
    var s := date + tail;
    assert s[10..] == tail;
    assert s[11..13] == tail[1..3];
    assert s[14..] == tail[4..];
  }

  /** Reads a `%Y-%m-%d` string back into a date. */
  function ParseIsoDate(s: string): Date
    requires |s| == 10
    requires Text.AllDigits(s[..4]) && Text.AllDigits(s[5..7]) && Text.AllDigits(s[8..])
  {
    Date(Text.ParseNat(s[..4]), Text.ParseNat(s[5..7]), Text.ParseNat(s[8..]))
  }

  /** The three fields of a `%Y-%m-%d` string sit at fixed positions. */
  lemma IsoDateFields(d: Date)
    requires ValidDate(d)
    ensures var s := IsoDate(d);
      s[..4] == Field(d.year, 4) && s[5..7] == Field(d.month, 2) && s[8..] == Field(d.day, 2)
  {
    DashedSlices(Field(d.year, 4), Field(d.month, 2), Field(d.day, 2));
  }

  lemma DashedSlices(y: string, m: string, dd: string)
    requires |y| == 4 && |m| == 2 && |dd| == 2
    ensures var s := y + "-" + m + "-" + dd;
      |s| == 10 && s[4] == '-' && s[7] == '-' && s[..4] == y && s[5..7] == m && s[8..] == dd
  {
    var s := y + "-" + m + "-" + dd;
    assert s == (y + "-") + m + ("-" + dd);
    Text.SlicesOfConcat(y + "-", m, "-" + dd);
    assert (y + "-")[..4] == y;
    assert ("-" + dd)[1..] == dd;
  }

  /** The three fields of a `%Y%m%d` string sit at fixed positions. */
  lemma CompactDateFields(d: Date)
    requires ValidDate(d)
    ensures var s := CompactDate(d);
      s[..4] == Field(d.year, 4) && s[4..6] == Field(d.month, 2) && s[6..] == Field(d.day, 2)
  {
    Text.SlicesOfConcat(Field(d.year, 4), Field(d.month, 2), Field(d.day, 2));
  }

  /** The two date renderings carry the same digits: the compact one is the ISO one without its dashes. */
  lemma CompactIsIsoWithoutDashes(d: Date)
    requires ValidDate(d)
    ensures CompactDate(d) == IsoDate(d)[..4] + IsoDate(d)[5..7] + IsoDate(d)[8..]
  {
    IsoDateFields(d);
  }

  /** `%Y-%m-%d` loses nothing: parsing it gives back the date. */
  lemma IsoDateRoundTrip(d: Date)
    requires ValidDate(d)
    ensures var s := IsoDate(d);
            Text.AllDigits(s[..4]) && Text.AllDigits(s[5..7]) && Text.AllDigits(s[8..]) &&
            ParseIsoDate(s) == d
  {
    IsoDateFields(d);
  }

  /** `%Y%m%d` loses nothing: different dates give different compact stamps. */
  lemma CompactDateInjective(d: Date, e: Date)
    requires ValidDate(d) && ValidDate(e)
    requires CompactDate(d) == CompactDate(e)
    ensures d == e
  {
    CompactDateFields(d);
    CompactDateFields(e);
  }
}
