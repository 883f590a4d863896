/**
 * Calendar date-times as the cleaner uses them through moment: reading an
 * ExifTool date with the format "YYYY:MM:DD HH:mm:ss", rendering a date
 * with a format string ("YYYY:MM:DD HH:mm:ss" for the metadata write,
 * "YYYY-MM-DD-HH-mm-ss" for the output file name), and turning an epoch
 * time in milliseconds into a local calendar date-time.
 */
module Dates {
  import opened Optional
  import opened Text

  /** A local calendar date-time to the second: the fields moment formats. */
  datatype DateTime = DateTime(year: int, month: int, day: int, hour: int, minute: int, second: int)

  /** The proleptic Gregorian leap-year rule. */
  predicate IsLeapYear(y: int)
  {
    y % 4 == 0 && (y % 100 != 0 || y % 400 == 0)
  }

  function DaysInMonth(y: int, m: int): int
  {
    if m == 2 then (if IsLeapYear(y) then 29 else 28)
    else if m == 4 || m == 6 || m == 9 || m == 11 then 30
    else 31
  }

  function DaysInYear(y: int): int
  {
    if IsLeapYear(y) then 366 else 365
  }

  /** What moment's `isValid` checks of a parsed date: every field within its calendar range. */
  predicate Valid(d: DateTime)
  {
    1 <= d.month <= 12 && 1 <= d.day <= DaysInMonth(d.year, d.month) &&
    0 <= d.hour < 24 && 0 <= d.minute < 60 && 0 <= d.second < 60
  }

  /** Days of year `y` before the first of month `m`; month 13 stands for the end of the year. */
  function DaysBeforeMonth(y: int, m: int): int
    requires 1 <= m <= 13
  {
    [0, 31, 59, 90, 120, 151, 181, 212, 243, 273, 304, 334, 365][m - 1] + (if IsLeapYear(y) && m > 2 then 1 else 0)
  }

  /** The cumulative table agrees with the month lengths and adds up to the year. */
  lemma MonthTable(y: int, m: int)
    requires 1 <= m <= 12
    ensures DaysBeforeMonth(y, m + 1) == DaysBeforeMonth(y, m) + DaysInMonth(y, m)
    ensures DaysBeforeMonth(y, 13) == DaysInYear(y)
  {
  }

  // ---------------------------------------------------------------------
  // Format strings

  /**
   * A moment format string read token by token: a zero-filled number of a
   * fixed width (`YYYY`, `MM`, `DD`, `HH`, `mm`, `ss`) or a literal
   * character, each followed by the rest of the format.
   */
  datatype Pattern = End | Field(width: nat, next: Pattern) | Literal(c: char, next: Pattern)

  /**
   * The shape of both date formats: `YYYY`, then `MM` and `DD` each after
   * `dateSep`, then `HH` after `middle`, then `mm` and `ss` each after
   * `timeSep`.
   */
  function DatePattern(dateSep: char, middle: char, timeSep: char): Pattern
  {
    Field(4, Literal(dateSep, Field(2, Literal(dateSep, Field(2, Literal(middle,
    Field(2, Literal(timeSep, Field(2, Literal(timeSep, Field(2, End)))))))))))
  }

  /** "YYYY:MM:DD HH:mm:ss", the pattern of ExifTool dates (index.js:101). */
  const ExifPattern: Pattern := DatePattern(':', ' ', ':')

  /** "YYYY-MM-DD-HH-mm-ss", the pattern of output file names (index.js:102). */
  const StampPattern: Pattern := DatePattern('-', '-', '-')

  function FieldCount(pat: Pattern): nat
  {
    match pat
    case End => 0
    case Field(_, next) => 1 + FieldCount(next)
    case Literal(_, next) => FieldCount(next)
  }

  /** The number of characters a pattern reads, and writes when every number fits its width. */
  function Width(pat: Pattern): nat
  {
    match pat
    case End => 0
    case Field(w, next) => w + Width(next)
    case Literal(_, next) => 1 + Width(next)
  }

  /** Every field is at least one digit wide. */
  predicate WellFormed(pat: Pattern)
  {
    match pat
    case End => true
    case Field(w, next) => w >= 1 && WellFormed(next)
    case Literal(_, next) => WellFormed(next)
  }

  /** Left-pads the decimal rendering of `n` with zeros to `w` characters; a longer rendering is kept whole. */
  function Pad(n: nat, w: nat): string
  {
    var digits := NatToString(n);
    if |digits| < w then Zeros(w - |digits|) + digits else digits
  }

  /** moment's zeroFill without a forced sign: a minus sign for negative numbers, then the padded magnitude. */
  function ZeroFill(n: int, w: nat): string
  {
    if n < 0 then "-" + Pad(-n, w) else Pad(n, w)
  }

  /** `date.format(pattern)`: each field rendered in turn, literals copied. */
  function Render(pat: Pattern, vals: seq<int>): string
    requires |vals| == FieldCount(pat)
  {
    match pat
    case End => []
    case Literal(c, next) => [c] + Render(next, vals)
    case Field(w, next) => ZeroFill(vals[0], w) + Render(next, vals[1..])
  }

  /**
   * Reading a text with a pattern: each field takes exactly its width in
   * digits, each literal must be present; what follows the pattern is
   * ignored.
   */
  function Scan(pat: Pattern, s: string): Option<seq<int>>
  {
    match pat
    case End => Some([])
    case Literal(c, next) =>
      if s != [] && s[0] == c then Scan(next, s[1..]) else None
    case Field(w, next) =>
      if w <= |s| && AllDigits(s[..w]) then
        match Scan(next, s[w..])
        case None => None
        case Some(rest) => Some([DecimalValue(s[..w])] + rest)
      else None
  }

  /** Every value is non-negative and short enough for its field. */
  predicate Fits(pat: Pattern, vals: seq<int>)
    requires |vals| == FieldCount(pat)
  {
    match pat
    case End => true
    case Literal(_, next) => Fits(next, vals)
    case Field(w, next) => 0 <= vals[0] < Pow10(w) && Fits(next, vals[1..])
  }

  /** A number below 10^w pads to exactly `w` digits that read back as the number. */
  lemma PadFits(n: nat, w: nat)
    requires 1 <= w && n < Pow10(w)
    ensures |Pad(n, w)| == w && AllDigits(Pad(n, w)) && DecimalValue(Pad(n, w)) == n
  {
    var digits := NatToString(n);
    NatToStringLength(n, w);
    DecimalRoundTrip(n);
    LeadingZeros(w - |digits|, digits);
  }

  /** Padding the value of a digit string to the string's length gives the string back, leading zeros included. */
  lemma {:induction false} PadOfDigits(t: string)
    requires |t| >= 1 && AllDigits(t)
    ensures Pad(DecimalValue(t), |t|) == t
    decreases |t|
  {
    if t[0] != '0' || |t| == 1 {
      CanonicalDigits(t);
    } else {
      var u := t[1..];
      assert Zeros(1) == "0";
      assert t == Zeros(1) + u;
      LeadingZeros(1, u);
      PadOfDigits(u);
      PadOneMore(DecimalValue(u), |u|);
    }
  }

  /** Padding to one more character puts one more zero in front. */
  lemma PadOneMore(n: nat, w: nat)
    requires |NatToString(n)| <= w
    ensures Pad(n, w + 1) == "0" + Pad(n, w)
  {
    var digits := NatToString(n);
    if |digits| < w {
      var k := w - |digits|;
      assert Zeros(k + 1) == "0" + Zeros(k);
      AppendAssoc("0", Zeros(k), digits);
    } else {
      assert Zeros(1) == "0";
    }
  }

  /** Reading a field from a text that starts with exactly its width in digits. */
  lemma ScanField(w: nat, next: Pattern, z: string, t: string)
    requires |z| == w && AllDigits(z)
    ensures Scan(Field(w, next), z + t) ==
      match Scan(next, t)
      case None => None
      case Some(r) => Some([DecimalValue(z)] + r)
  {
    assert (z + t)[..|z|] == z;
    assert (z + t)[|z|..] == t;
  }

  /** Reading a literal from a text that starts with it. */
  lemma ScanLiteral(c: char, next: Pattern, t: string)
    ensures Scan(Literal(c, next), [c] + t) == Scan(next, t)
  {
    assert ([c] + t)[1..] == t;
  }

  /** The first `w + n` characters are the first `w`, then the first `n` of the rest. */
  lemma TakeSplit(s: string, w: nat, n: nat)
    requires w + n <= |s|
    ensures s[..w + n] == s[..w] + s[w..][..n]
  {
  }

  /** Reading back what a pattern rendered gives the values, whatever text follows. */
  lemma {:induction false} ScanRender(pat: Pattern, vals: seq<int>, rest: string)
    requires WellFormed(pat) && |vals| == FieldCount(pat) && Fits(pat, vals)
    ensures |Render(pat, vals)| == Width(pat)
    ensures Scan(pat, Render(pat, vals) + rest) == Some(vals)
  {
    match pat
    case End =>
    case Literal(c, next) =>
      ScanRender(next, vals, rest);
      AppendAssoc([c], Render(next, vals), rest);
      ScanLiteral(c, next, Render(next, vals) + rest);
    case Field(w, next) =>
      var tail := vals[1..];
      ScanRender(next, tail, rest);
      PadFits(vals[0], w);
      var z := Pad(vals[0], w);
      assert Render(pat, vals) == z + Render(next, tail);
      AppendAssoc(z, Render(next, tail), rest);
      ScanField(w, next, z, Render(next, tail) + rest);
      assert vals == [vals[0]] + tail;
  }

  /** What a pattern reads is exactly what it renders again: the text read is in canonical form. */
  lemma {:induction false} RenderScan(pat: Pattern, s: string)
    requires WellFormed(pat) && Scan(pat, s).Some?
    ensures |Scan(pat, s).value| == FieldCount(pat) && Width(pat) <= |s|
    ensures Render(pat, Scan(pat, s).value) == s[..Width(pat)]
  {
    match pat
    case End =>
    case Literal(c, next) =>
      RenderScan(next, s[1..]);
      TakeSplit(s, 1, Width(next));
      assert s[..1] == [c];
    case Field(w, next) =>
      RenderScan(next, s[w..]);
      PadOfDigits(s[..w]);
      TakeSplit(s, w, Width(next));
  }

  // ---------------------------------------------------------------------
  // ExifTool dates and output stamps

  function Fields(d: DateTime): seq<int>
  {
    [d.year, d.month, d.day, d.hour, d.minute, d.second]
  }

  function FromFields(v: seq<int>): DateTime
    requires |v| == 6
  {
    DateTime(v[0], v[1], v[2], v[3], v[4], v[5])
  }

  /**
   * `moment(text, "YYYY:MM:DD HH:mm:ss")` followed by `isValid()`, as a
   * fixed-pattern reading: the first 19 characters must follow the pattern
   * and give a date in range; text after them is ignored.
   */
  function ParseExif(text: string): Option<DateTime>
  {
    match Scan(ExifPattern, text)
    case None => None
    case Some(v) =>
      if |v| == 6 && Valid(FromFields(v)) then Some(FromFields(v)) else None
  }

  /** `date.format("YYYY:MM:DD HH:mm:ss")`. */
  function FormatExif(d: DateTime): string
  {
    Render(ExifPattern, Fields(d))
  }

  /** `date.format("YYYY-MM-DD-HH-mm-ss")`. */
  function FormatStamp(d: DateTime): string
  {
    Render(StampPattern, Fields(d))
  }

  /** The ExifTool pattern is well formed, has the six fields of a date and spans 19 characters. */
  lemma ExifPatternShape()
    ensures WellFormed(ExifPattern) && FieldCount(ExifPattern) == 6 && Width(ExifPattern) == 19
  {
  }

  /** The stamp pattern is well formed, has the six fields of a date and spans 19 characters. */
  lemma StampPatternShape()
    ensures WellFormed(StampPattern) && FieldCount(StampPattern) == 6 && Width(StampPattern) == 19
  {
  }

  /** A valid date with a four-digit year fills a date pattern field by field. */
  lemma DatePatternFits(a: char, b: char, c: char, d: DateTime)
    requires Valid(d) && 0 <= d.year <= 9999
    ensures FieldCount(DatePattern(a, b, c)) == 6 && Fits(DatePattern(a, b, c), Fields(d))
  {
    var v := Fields(d);
    assert Pow10(2) == 100 && Pow10(4) == 10000;
    var p5 := Literal(c, Field(2, End));
    assert Fits(p5, v[5..]);
    var p3 := Literal(c, Field(2, p5));
    assert v[4..][1..] == v[5..];
    assert Fits(p3, v[4..]);
    var p1 := Literal(b, Field(2, p3));
    assert v[3..][1..] == v[4..];
    assert Fits(p1, v[3..]);
    var p0 := Literal(a, Field(2, p1));
    assert v[2..][1..] == v[3..];
    assert Fits(p0, v[2..]);
    assert v[1..][1..] == v[2..];
    assert Fits(Literal(a, Field(2, p0)), v[1..]);
  }

  /** Reading back a formatted ExifTool date gives the date, for years 0 to 9999. */
  lemma ExifRoundTrip(d: DateTime)
    requires Valid(d) && 0 <= d.year <= 9999
    ensures |FormatExif(d)| == 19 && ParseExif(FormatExif(d)) == Some(d)
  {
    ExifPatternShape();
    DatePatternFits(':', ' ', ':', d);
    ScanRender(ExifPattern, Fields(d), []);
    assert FormatExif(d) + [] == FormatExif(d);
  }

  /** A date that parses is the one its first 19 characters spell in canonical form: formatting it gives them back. */
  lemma ExifCanonical(text: string, d: DateTime)
    requires ParseExif(text) == Some(d)
    ensures |text| >= 19 && FormatExif(d) == text[..19]
  {
    ExifPatternShape();
    RenderScan(ExifPattern, text);
    assert Fields(FromFields(Scan(ExifPattern, text).value)) == Scan(ExifPattern, text).value;
  }

  /** Output stamps are 19 characters and tell dates apart: two dates with the same stamp are the same date. */
  lemma StampInjective(d1: DateTime, d2: DateTime)
    requires Valid(d1) && 0 <= d1.year <= 9999 && Valid(d2) && 0 <= d2.year <= 9999
    ensures |FormatStamp(d1)| == 19
    ensures FormatStamp(d1) == FormatStamp(d2) <==> d1 == d2
  {
    StampPatternShape();
    DatePatternFits('-', '-', '-', d1);
    DatePatternFits('-', '-', '-', d2);
    ScanRender(StampPattern, Fields(d1), []);
    ScanRender(StampPattern, Fields(d2), []);
    assert FormatStamp(d1) + [] == FormatStamp(d1);
    assert FormatStamp(d2) + [] == FormatStamp(d2);
    if FormatStamp(d1) == FormatStamp(d2) {
      assert Fields(d1) == Fields(d2);
      assert d1 == FromFields(Fields(d1));
    }
  }

  // ---------------------------------------------------------------------
  // Epoch times

  /** Days from 1970-01-01 to the first of January of year `y` (negative before 1970). */
  function YearStart(y: int): int
    decreases if y < 1970 then 1970 - y else y - 1970
  {
    if y == 1970 then 0
    else if y > 1970 then YearStart(y - 1) + DaysInYear(y - 1)
    else YearStart(y + 1) - DaysInYear(y)
  }

  /** Consecutive years start one year length apart. */
  lemma YearStartStep(y: int)
    ensures YearStart(y + 1) == YearStart(y) + DaysInYear(y)
  {
  }

  /** The year holding the day `d` days after the first of January of year `y`, and that day's index in its year. */
  function YearOf(y: int, d: int): (r: (int, int))
    ensures 0 <= r.1 < DaysInYear(r.0)
    ensures YearStart(r.0) + r.1 == YearStart(y) + d
    decreases if d < 0 then 1 else 0, if d < 0 then -d else d
  {
    YearStartStep(y - 1);
    YearStartStep(y);
    if d < 0 then YearOf(y - 1, d + DaysInYear(y - 1))
    else if d >= DaysInYear(y) then YearOf(y + 1, d - DaysInYear(y))
    else (y, d)
  }

  /** The month holding the day `d` days after the first of month `m` of year `y`, and that day's number in its month. */
  function MonthOf(y: int, m: int, d: int): (r: (int, int))
    requires 1 <= m <= 12 && 0 <= d && DaysBeforeMonth(y, m) + d < DaysInYear(y)
    ensures 1 <= r.0 <= 12 && 1 <= r.1 <= DaysInMonth(y, r.0)
    ensures DaysBeforeMonth(y, r.0) + r.1 - 1 == DaysBeforeMonth(y, m) + d
    decreases 12 - m
  {
    MonthTable(y, m);
    if d < DaysInMonth(y, m) then (m, d + 1)
    else MonthOf(y, m + 1, d - DaysInMonth(y, m))
  }

  /**
   * `moment(ms)`: the local calendar date-time of an epoch time in
   * milliseconds, for a fixed offset of local time from UTC. The
   * milliseconds are dropped towards the past, as JavaScript's Date does.
   */
  function FromEpochMs(ms: int, offsetMs: int): (d: DateTime)
    ensures Valid(d)
  {
    var secs := (ms + offsetMs) / 1000;
    CalendarOf(secs / 86400, secs % 86400)
  }

  /** The date-time of the second `rem` of the day `days` days after 1970-01-01. */
  function CalendarOf(days: int, rem: int): (d: DateTime)
    requires 0 <= rem < 86400
    ensures Valid(d)
  {
    var yd := YearOf(1970, days);
    var md := MonthOf(yd.0, 1, yd.1);
    DateTime(yd.0, md.0, md.1, rem / 3600, rem % 3600 / 60, rem % 60)
  }

  /** Seconds from 1970-01-01 00:00:00 to a date-time on the same local clock. */
  function EpochSeconds(d: DateTime): int
    requires Valid(d)
  {
    DayNumber(d) * 86400 + SecondOfDay(d)
  }

  /** Days from 1970-01-01 to the day of `d`. */
  function DayNumber(d: DateTime): int
    requires Valid(d)
  {
    YearStart(d.year) + DaysBeforeMonth(d.year, d.month) + d.day - 1
  }

  /** Seconds from midnight to the time of `d`. */
  function SecondOfDay(d: DateTime): int
  {
    d.hour * 3600 + d.minute * 60 + d.second
  }

  /** The calendar date-time of an epoch time lies on its second: counting back gives the time to the second. */
  lemma EpochRoundTrip(ms: int, offsetMs: int)
    ensures EpochSeconds(FromEpochMs(ms, offsetMs)) == (ms + offsetMs) / 1000
  {
    var secs := (ms + offsetMs) / 1000;
    var rem := secs % 86400;
    assert secs == secs / 86400 * 86400 + rem;
    assert rem == rem / 3600 * 3600 + rem % 3600 / 60 * 60 + rem % 60;
  }

  /** Years start in order. */
  lemma {:induction false} YearStartMonotone(y1: int, y2: int)
    requires y1 < y2
    ensures YearStart(y1) + DaysInYear(y1) <= YearStart(y2)
    decreases y2 - y1
  {
    YearStartStep(y1);
    if y1 + 1 < y2 {
      YearStartMonotone(y1 + 1, y2);
    }
  }

  /** A day number names one year and one day within it. */
  lemma YearOfUnique(y1: int, k1: int, y2: int, k2: int)
    requires 0 <= k1 < DaysInYear(y1) && 0 <= k2 < DaysInYear(y2)
    requires YearStart(y1) + k1 == YearStart(y2) + k2
    ensures y1 == y2 && k1 == k2
  {
    if y1 < y2 {
      YearStartMonotone(y1, y2);
    } else if y2 < y1 {
      YearStartMonotone(y2, y1);
    }
  }

  /** A day of the year names one month and one day within it. */
  lemma MonthOfUnique(y: int, m1: int, d1: int, m2: int, d2: int)
    requires 1 <= m1 <= 12 && 1 <= d1 <= DaysInMonth(y, m1)
    requires 1 <= m2 <= 12 && 1 <= d2 <= DaysInMonth(y, m2)
    requires DaysBeforeMonth(y, m1) + d1 == DaysBeforeMonth(y, m2) + d2
    ensures m1 == m2 && d1 == d2
  {
    MonthTable(y, m1);
    MonthTable(y, m2);
  }

  /** Every valid date-time is the calendar date-time of its own epoch seconds: the conversion misses no date and mixes none up. */
  lemma EpochOfDate(d: DateTime, offsetMs: int)
    requires Valid(d)
    ensures FromEpochMs(EpochSeconds(d) * 1000 - offsetMs, offsetMs) == d
  {
    WholeSeconds(EpochSeconds(d), offsetMs);
    CalendarOfDate(d);
    SplitDay(DayNumber(d), SecondOfDay(d));
  }

  /** The day and second of a valid date-time give the date-time back. */
  lemma CalendarOfDate(d: DateTime)
    requires Valid(d)
    ensures 0 <= SecondOfDay(d) < 86400 && CalendarOf(DayNumber(d), SecondOfDay(d)) == d
  {
    var k := DaysBeforeMonth(d.year, d.month) + d.day - 1;
    ClockOf(d.hour, d.minute, d.second);
    MonthTable(d.year, d.month);
    var yd := YearOf(1970, YearStart(d.year) + k);
    YearOfUnique(yd.0, yd.1, d.year, k);
    var md := MonthOf(d.year, 1, k);
    MonthOfUnique(d.year, md.0, md.1, d.month, d.day);
  }

  /** An epoch time of a whole number of local seconds, shifted back by the offset, converts to those seconds. */
  lemma WholeSeconds(secs: int, offsetMs: int)
    ensures (secs * 1000 - offsetMs + offsetMs) / 1000 == secs
  {
  }

  /** The seconds of a day split back into the day and the second within it. */
  lemma SplitDay(days: int, rem: int)
    requires 0 <= rem < 86400
    ensures (days * 86400 + rem) / 86400 == days && (days * 86400 + rem) % 86400 == rem
  {
  }

  /** The second of the day of a clock time reads back as its hour, minute and second. */
  lemma ClockOf(h: int, mi: int, s: int)
    requires 0 <= h < 24 && 0 <= mi < 60 && 0 <= s < 60
    ensures var rem := h * 3600 + mi * 60 + s;
      0 <= rem < 86400 && rem / 3600 == h && rem % 3600 / 60 == mi && rem % 60 == s
  {
  }

  /** JavaScript's time value range: a moment built from an epoch time is valid exactly within 8.64e15 ms of the epoch. */
  predicate EpochInRange(ms: int)
  {
    -8_640_000_000_000_000 <= ms <= 8_640_000_000_000_000
  }
}
