/** The two time layouts of the program. Timestamps are read with
    time.Parse("2006-01-02T15:04:05.999Z", s) and the current hour is written
    with Format("2006-01-02T15"). Parse follows the parser of Go 1.20 and
    later (',' before a fraction is accepted from 1.17, and digits past the
    ninth are ignored from 1.20) chunk by chunk:
    "2006" takes exactly four digits, "01", "02", "04" and "05" exactly two,
    "15" one or two, ".999" an optional '.' or ',' followed by any number of
    digits (the first nine count), and the letters '-', 'T', ':' and 'Z' are
    literals; trailing text is an error, and so is a field out of range or a
    day past the end of its month. */
module Layout {
  import opened Wrappers
  import opened Decimal
  import opened Clock

  /** A number read from the front of a string and the text after it. */
  datatype Chunk = Chunk(value: nat, rest: string)

  /** The date read by "2006-01-02T" and the text after the 'T'. */
  datatype DateChunk = DateChunk(year: nat, month: nat, day: nat, rest: string)

  /** The clock read by "15:04:05" and the text after the seconds. */
  datatype ClockChunk = ClockChunk(hour: nat, minute: nat, second: nat, rest: string)

  /** The "2006" element: exactly four digits. */
  function LongYear(s: string): (r: Option<Chunk>)
    ensures r.Some? ==> r.value.value < 10000
  {
    if |s| < 4 || !AllDigits(s[..4]) then None
    else
      NumBound(s[..4]);
      Some(Chunk(Num(s[..4]), s[4..]))
  }

  /** Go's getnum: one digit, or two when a second digit follows; a fixed-width
      element ("01", "02", "04", "05") insists on two. */
  function GetNum(s: string, fixed: bool): Option<Chunk> {
    if |s| < 1 || !IsDigit(s[0]) then None
    else if |s| < 2 || !IsDigit(s[1]) then
      if fixed then None else Some(Chunk(DigitValue(s[0]), s[1..]))
    else Some(Chunk(10 * DigitValue(s[0]) + DigitValue(s[1]), s[2..]))
  }

  /** A literal character of the layout. */
  function Skip(s: string, c: char): Option<string> {
    if |s| >= 1 && s[0] == c then Some(s[1..]) else None
  }

  /** The length of the run of digits at the front of s. */
  function LeadingDigits(s: string): (k: nat)
    ensures k <= |s| && AllDigits(s[..k])
    ensures k < |s| ==> !IsDigit(s[k])
  {
    if s == [] || !IsDigit(s[0]) then 0
    else
      var k := 1 + LeadingDigits(s[1..]);
      assert s[..k] == [s[0]] + s[1..][..k - 1];
      k
  }

  /** Up to nine fraction digits as nanoseconds: the digits' value scaled by
      the powers of ten they stand short of nine places. */
  function Scaled(digits: string): nat
    requires |digits| <= 9 && AllDigits(digits)
  {
    Num(digits) * Pow10(9 - |digits|)
  }

  /** The ".999" element: absent unless a '.' or ',' is followed by a digit;
      otherwise every following digit is consumed and the first nine give the
      nanoseconds, scaled up when there are fewer. */
  function FracSecond(s: string): (c: Chunk)
    ensures c.value < NanosPerSecond
  {
    if |s| < 2 || !(s[0] == '.' || s[0] == ',') || !IsDigit(s[1]) then Chunk(0, s)
    else
      var k := LeadingDigits(s[1..]);
      var used := if k > 9 then 9 else k;
      FracDigits(s[1..], k, used);
      Chunk(Scaled(s[1..][..used]), s[1 + k..])
  }

  /** The first nine (or fewer) digits of the fraction, scaled to
      nanoseconds, stay below a second. */
  lemma FracDigits(t: string, k: nat, used: nat)
    requires k <= |t| && AllDigits(t[..k]) && used <= k && used <= 9
    ensures AllDigits(t[..used]) && Scaled(t[..used]) < NanosPerSecond
  {
    assert forall i :: 0 <= i < used ==> t[..used][i] == t[..k][i];
    NumBound(t[..used]);
    ScaledBound(Num(t[..used]), used);
  }

  lemma ScaledBound(n: nat, used: nat)
    requires used <= 9 && n < Pow10(used)
    ensures n * Pow10(9 - used) < NanosPerSecond
  {
    var p := Pow10(9 - used);
    PowAdd(used, 9 - used);
    assert Pow10(9) == NanosPerSecond;
    MulLess(n, Pow10(used), p);
  }

  lemma MulLess(a: nat, b: nat, c: nat)
    requires a < b && c >= 1
    ensures a * c < b * c
  {
  }

  lemma {:induction false} PowAdd(a: nat, b: nat)
    ensures Pow10(a) * Pow10(b) == Pow10(a + b)
  {
    if a > 0 {
      PowAdd(a - 1, b);
    }
  }

  /** The layout's date elements "2006-01-02T". */
  function DatePart(s: string): (r: Option<DateChunk>)
    ensures r.Some? ==> r.value.year < 10000
  {
    var year :- LongYear(s);
    var s1 :- Skip(year.rest, '-');
    var month :- GetNum(s1, true);
    var s2 :- Skip(month.rest, '-');
    var day :- GetNum(s2, true);
    var s3 :- Skip(day.rest, 'T');
    Some(DateChunk(year.value, month.value, day.value, s3))
  }

  /** The layout's clock elements "15:04:05". */
  function ClockPart(s: string): Option<ClockChunk> {
    var hour :- GetNum(s, false);
    var s1 :- Skip(hour.rest, ':');
    var minute :- GetNum(s1, true);
    var s2 :- Skip(minute.rest, ':');
    var second :- GetNum(s2, true);
    Some(ClockChunk(hour.value, minute.value, second.value, second.rest))
  }

  /** time.Parse("2006-01-02T15:04:05.999Z", s): Some UTC time, or None where
      Go reports an error. The elements are read left to right, then the
      fields are range-checked. */
  function Parse(s: string): (r: Option<Time>)
    ensures r.Some? ==> WellFormed(r.value) && 0 <= r.value.year <= 9999
  {
    var date :- DatePart(s);
    var clock :- ClockPart(date.rest);
    var frac := FracSecond(clock.rest);
    var end :- Skip(frac.rest, 'Z');
    if end == [] && 1 <= date.month <= 12 && clock.hour < 24 && clock.minute < 60 && clock.second < 60
       && 1 <= date.day <= DaysIn(date.month, date.year)
    then Some(Time(date.year, date.month, date.day, clock.hour, clock.minute, clock.second, frac.value))
    else None
  }

  /** `t, _ := time.Parse(layout, s)`: a failed parse leaves the zero time. */
  function ParseOrZero(s: string): (t: Time)
    ensures WellFormed(t)
  {
    Parse(s).GetOr(Zero)
  }

  /** now.Format("2006-01-02T15"): the hour key the status is matched on. */
  function FormatHour(t: Time): string {
    AppendInt(t.year, 4) + "-" + AppendInt(t.month, 2) + "-" + AppendInt(t.day, 2) + "T" + AppendInt(t.hour, 2)
  }

  /** Everything of the layout up to the seconds: "2006-01-02T15:04:05". */
  function FormatSeconds(t: Time): string {
    FormatHour(t) + ":" + AppendInt(t.minute, 2) + ":" + AppendInt(t.second, 2)
  }

  /** The layout "2006-01-02T15:04:05.999Z" used for formatting: ".999" keeps
      milliseconds, drops trailing zeros, and vanishes when they are all zero. */
  function Format(t: Time): string {
    FormatSeconds(t) + Millis(t.nanos) + "Z"
  }

  function Millis(nanos: int): string {
    var ms := nanos / 1_000_000;
    if ms <= 0 || 1000 <= ms then ""
    else if ms % 100 == 0 then ['.', DigitChar(ms / 100)]
    else if ms % 10 == 0 then ['.', DigitChar(ms / 100), DigitChar(ms / 10 % 10)]
    else ['.', DigitChar(ms / 100), DigitChar(ms / 10 % 10), DigitChar(ms % 10)]
  }

  // ---------------------------------------------------------------------------
  // What the parser accepts

  /** Two digits at positions i and i + 1, as getnum reads them. */
  function Two(s: string, i: nat): nat
    requires i + 1 < |s| && IsDigit(s[i]) && IsDigit(s[i + 1])
  {
    10 * DigitValue(s[i]) + DigitValue(s[i + 1])
  }

  /** The fixed-width front "dddd-dd-ddTdd:dd:dd" of a timestamp. */
  predicate HeadShape(s: string) {
    && |s| >= 19 && AllDigits(s[..4]) && s[4] == '-'
    && IsDigit(s[5]) && IsDigit(s[6]) && s[7] == '-'
    && IsDigit(s[8]) && IsDigit(s[9]) && s[10] == 'T'
    && IsDigit(s[11]) && IsDigit(s[12]) && s[13] == ':'
    && IsDigit(s[14]) && IsDigit(s[15]) && s[16] == ':'
    && IsDigit(s[17]) && IsDigit(s[18])
  }

  /** The date front "dddd-dd-ddT". */
  predicate DateShape(s: string) {
    && |s| >= 11 && AllDigits(s[..4]) && s[4] == '-'
    && IsDigit(s[5]) && IsDigit(s[6]) && s[7] == '-'
    && IsDigit(s[8]) && IsDigit(s[9]) && s[10] == 'T'
  }

  /** The clock "dd:dd:dd" with a two-digit hour. */
  predicate ClockShape(c: string) {
    && |c| >= 8 && IsDigit(c[0]) && IsDigit(c[1]) && c[2] == ':'
    && IsDigit(c[3]) && IsDigit(c[4]) && c[5] == ':' && IsDigit(c[6]) && IsDigit(c[7])
  }

  /** The clock "d:dd:dd" with a one-digit hour. */
  predicate ShortClockShape(c: string) {
    && |c| >= 7 && IsDigit(c[0]) && c[1] == ':'
    && IsDigit(c[2]) && IsDigit(c[3]) && c[4] == ':' && IsDigit(c[5]) && IsDigit(c[6])
  }

  lemma DatePartOf(s: string)
    requires DateShape(s)
    ensures DatePart(s) == Some(DateChunk(Num(s[..4]), Two(s, 5), Two(s, 8), s[11..]))
  {
    assert LongYear(s) == Some(Chunk(Num(s[..4]), s[4..]));
    assert s[4..][1..] == s[5..];
    assert GetNum(s[5..], true) == Some(Chunk(Two(s, 5), s[7..]));
    assert s[7..][1..] == s[8..];
    assert GetNum(s[8..], true) == Some(Chunk(Two(s, 8), s[10..]));
    assert s[10..][1..] == s[11..];
  }

  lemma ClockPartOf(c: string)
    requires ClockShape(c)
    ensures ClockPart(c) == Some(ClockChunk(Two(c, 0), Two(c, 3), Two(c, 6), c[8..]))
  {
    assert GetNum(c, false) == Some(Chunk(Two(c, 0), c[2..]));
    assert c[2..][1..] == c[3..];
    assert GetNum(c[3..], true) == Some(Chunk(Two(c, 3), c[5..]));
    assert c[5..][1..] == c[6..];
    assert GetNum(c[6..], true) == Some(Chunk(Two(c, 6), c[8..]));
  }

  lemma ShortClockPartOf(c: string)
    requires ShortClockShape(c)
    ensures ClockPart(c) == Some(ClockChunk(DigitValue(c[0]), Two(c, 2), Two(c, 5), c[7..]))
  {
    assert GetNum(c, false) == Some(Chunk(DigitValue(c[0]), c[1..]));
    assert c[1..][1..] == c[2..];
    assert GetNum(c[2..], true) == Some(Chunk(Two(c, 2), c[4..]));
    assert c[4..][1..] == c[5..];
    assert GetNum(c[5..], true) == Some(Chunk(Two(c, 5), c[7..]));
  }

  /** After the date and the clock, the fraction and a final 'Z' must end
      the string, and then the range checks decide. */
  lemma ParseOfParts(s: string, date: DateChunk, clock: ClockChunk)
    requires DatePart(s) == Some(date) && ClockPart(date.rest) == Some(clock)
    ensures
      var frac := FracSecond(clock.rest);
      Parse(s) ==
        if frac.rest == "Z" && 1 <= date.month <= 12 && clock.hour < 24 && clock.minute < 60 && clock.second < 60
           && 1 <= date.day <= DaysIn(date.month, date.year)
        then Some(Time(date.year, date.month, date.day, clock.hour, clock.minute, clock.second, frac.value))
        else None
  {
    var frac := FracSecond(clock.rest);
    if frac.rest == "Z" {
      assert frac.rest[1..] == [];
    } else {
      assert Skip(frac.rest, 'Z') != Some([]);
    }
  }

  /** On a string with the fixed-width front, Parse reads the seven fields
      from their positions and accepts exactly when the fraction and the 'Z'
      end the string and every field is in range. */
  lemma ParseOfHeadShape(s: string)
    requires HeadShape(s)
    ensures
      var frac := FracSecond(s[19..]);
      var y, mo, d, h, mi, se := Num(s[..4]), Two(s, 5), Two(s, 8), Two(s, 11), Two(s, 14), Two(s, 17);
      Parse(s) ==
        if frac.rest == "Z" && 1 <= mo <= 12 && h < 24 && mi < 60 && se < 60 && 1 <= d <= DaysIn(mo, y)
        then Some(Time(y, mo, d, h, mi, se, frac.value))
        else None
  {
    DatePartOf(s);
    HeadClockOf(s);
    ParseOfParts(s, DateChunk(Num(s[..4]), Two(s, 5), Two(s, 8), s[11..]), ClockChunk(Two(s, 11), Two(s, 14), Two(s, 17), s[19..]));
  }

  /** The two-digit clock of the fixed-width front. */
  lemma HeadClockOf(s: string)
    requires HeadShape(s)
    ensures ClockPart(s[11..]) == Some(ClockChunk(Two(s, 11), Two(s, 14), Two(s, 17), s[19..]))
  {
    var c := s[11..];
    assert c[0] == s[11] && c[1] == s[12] && c[2] == s[13] && c[3] == s[14] && c[4] == s[15];
    assert c[5] == s[16] && c[6] == s[17] && c[7] == s[18] && c[8..] == s[19..];
    ClockPartOf(c);
  }

  /** The fixed-width front "dddd-dd-ddTdd:dd:dd" of s spells the date and
      clock fields of t. */
  predicate Spells(s: string, t: Time) {
    && HeadShape(s)
    && Num(s[..4]) == t.year && Two(s, 5) == t.month && Two(s, 8) == t.day
    && Two(s, 11) == t.hour && Two(s, 14) == t.minute && Two(s, 17) == t.second
  }

  /** A well-formed time whose fields sit at the fixed-width positions, with
      the fraction reading its nanoseconds and ending at the 'Z', is the
      parse. */
  lemma HeadShapeAccepts(s: string, t: Time)
    requires Spells(s, t) && WellFormed(t)
    requires FracSecond(s[19..]) == Chunk(t.nanos, "Z")
    ensures Parse(s) == Some(t)
  {
    ParseOfHeadShape(s);
  }

  /** Parse-then-format gives back the hour key: for a timestamp the layout
      accepts with a two-digit hour, formatting its time with
      "2006-01-02T15" yields exactly its first 13 characters, the prefix the
      status matching compares. */
  lemma HourKeyRoundTrip(s: string)
    requires HeadShape(s) && Parse(s).Some?
    ensures FormatHour(Parse(s).value) == s[..13]
  {
    ParsedHead(s);
    var t := Parse(s).value;
    FormatHourShape(t);
    var f := FormatHour(t);
    SameFour(f, s);
    SameTwo(f, s, 5);
    SameTwo(f, s, 8);
    SameTwo(f, s, 11);
    SamePrefix(f, s);
  }

  /** Thirteen characters agreeing with the front of s, the first four as a
      block, are that front. */
  lemma SamePrefix(f: string, s: string)
    requires |f| == 13 && |s| >= 13 && f[..4] == s[..4]
    requires f[4] == s[4] && f[5] == s[5] && f[6] == s[6] && f[7] == s[7] && f[8] == s[8]
    requires f[9] == s[9] && f[10] == s[10] && f[11] == s[11] && f[12] == s[12]
    ensures f == s[..13]
  {
    assert forall i :: 0 <= i < 4 ==> f[i] == f[..4][i] && s[i] == s[..4][i];
    assert forall i :: 0 <= i < 13 ==> f[i] == s[..13][i];
  }

  lemma ParsedHead(s: string)
    requires HeadShape(s) && Parse(s).Some?
    ensures var t := Parse(s).value;
      t.year == Num(s[..4]) && t.month == Two(s, 5) && t.day == Two(s, 8) && t.hour == Two(s, 11)
  {
    ParseOfHeadShape(s);
  }

  /** Equal two-digit values at the same position mean equal characters. */
  lemma SameTwo(f: string, s: string, i: nat)
    requires i + 1 < |f| && i + 1 < |s|
    requires IsDigit(f[i]) && IsDigit(f[i + 1]) && IsDigit(s[i]) && IsDigit(s[i + 1])
    requires Two(f, i) == Two(s, i)
    ensures f[i] == s[i] && f[i + 1] == s[i + 1]
  {
  }

  /** Equal four-digit years mean equal first four characters. */
  lemma SameFour(f: string, s: string)
    requires |f| >= 4 && |s| >= 4 && AllDigits(f[..4]) && AllDigits(s[..4])
    requires Num(f[..4]) == Num(s[..4])
    ensures f[..4] == s[..4]
  {
    var x, y := f[..4], s[..4];
    Num4(x);
    Num4(y);
    SameTwo(x, y, 0);
    SameTwo(x, y, 2);
  }

  /** The front "dddd-dd-ddTd:dd:dd" with a one-digit hour. */
  predicate ShortHourShape(s: string) {
    && |s| >= 18 && AllDigits(s[..4]) && s[4] == '-'
    && IsDigit(s[5]) && IsDigit(s[6]) && s[7] == '-'
    && IsDigit(s[8]) && IsDigit(s[9]) && s[10] == 'T'
    && IsDigit(s[11]) && s[12] == ':'
    && IsDigit(s[13]) && IsDigit(s[14]) && s[15] == ':'
    && IsDigit(s[16]) && IsDigit(s[17])
  }

  lemma ParseOfShortHourShape(s: string)
    requires ShortHourShape(s)
    ensures
      var frac := FracSecond(s[18..]);
      var y, mo, d, h, mi, se := Num(s[..4]), Two(s, 5), Two(s, 8), DigitValue(s[11]), Two(s, 13), Two(s, 16);
      Parse(s) ==
        if frac.rest == "Z" && 1 <= mo <= 12 && mi < 60 && se < 60 && 1 <= d <= DaysIn(mo, y)
        then Some(Time(y, mo, d, h, mi, se, frac.value))
        else None
  {
    DatePartOf(s);
    ShortClockOf(s);
    ParseOfParts(s, DateChunk(Num(s[..4]), Two(s, 5), Two(s, 8), s[11..]), ClockChunk(DigitValue(s[11]), Two(s, 13), Two(s, 16), s[18..]));
  }

  /** The one-digit-hour clock of the short front. */
  lemma ShortClockOf(s: string)
    requires ShortHourShape(s)
    ensures ClockPart(s[11..]) == Some(ClockChunk(DigitValue(s[11]), Two(s, 13), Two(s, 16), s[18..]))
  {
    var c := s[11..];
    assert c[0] == s[11] && c[1] == s[12] && c[2] == s[13] && c[3] == s[14] && c[4] == s[15];
    assert c[5] == s[16] && c[6] == s[17] && c[7..] == s[18..];
    ShortClockPartOf(c);
  }

  /** The hour element "15" takes a single digit too, so the layout accepts a
      timestamp whose first 13 characters are no hour key at all. */
  lemma OneDigitHour(s: string)
    requires s == "2018-11-26T7:00:00Z"
    ensures Parse(s) == Some(Time(2018, 11, 26, 7, 0, 0, 0))
    ensures FormatHour(Time(2018, 11, 26, 7, 0, 0, 0)) == "2018-11-26T07"
    ensures s[..13] != FormatHour(Time(2018, 11, 26, 7, 0, 0, 0))
  {
    ShortHourParse(s);
    SevenOClock();
    ShortHourPrefix(s);
  }

  lemma ShortHourPrefix(s: string)
    requires s == "2018-11-26T7:00:00Z"
    ensures s[..13] != "2018-11-26T07"
  {
    assert s[..13][12] == ':' && "2018-11-26T07"[12] == '7';
  }

  lemma ShortHourParse(s: string)
    requires s == "2018-11-26T7:00:00Z"
    ensures Parse(s) == Some(Time(2018, 11, 26, 7, 0, 0, 0))
  {
    assert ShortHourShape(s) && s[18..] == "Z";
    Num4(s[..4]);
    ShortHourTime(s, Time(2018, 11, 26, 7, 0, 0, 0));
  }

  /** On the one-digit-hour front followed by 'Z', a well-formed time whose
      fields are the ones spelled out is the parse. */
  lemma ShortHourTime(s: string, t: Time)
    requires ShortHourShape(s) && s[18..] == "Z"
    requires t == Time(Num(s[..4]), Two(s, 5), Two(s, 8), DigitValue(s[11]), Two(s, 13), Two(s, 16), 0)
    requires WellFormed(t)
    ensures Parse(s) == Some(t)
  {
    ParseOfShortHourShape(s);
  }

  lemma SevenOClock()
    ensures FormatHour(Time(2018, 11, 26, 7, 0, 0, 0)) == "2018-11-26T07"
  {
  }

  /** On the fixed-width front followed by a fraction of one to nine digits
      and 'Z', a time whose fields are the ones spelled out is what the
      parse stores. */
  lemma HeadShapeTime(s: string, d: string, t: Time)
    requires Spells(s, t) && WellFormed(t)
    requires 1 <= |d| <= 9 && AllDigits(d) && s[19..] == ['.'] + d + "Z" && Scaled(d) == t.nanos
    ensures ParseOrZero(s) == t
  {
    FracSecondOf('.', d);
    HeadShapeAccepts(s, t);
  }

  /** A run of digits ended by a non-digit (or by the end) is read whole. */
  lemma {:induction false} LeadingDigitsOf(d: string, rest: string)
    requires AllDigits(d)
    requires rest == [] || !IsDigit(rest[0])
    ensures LeadingDigits(d + rest) == |d|
  {
    if d != [] {
      assert (d + rest)[1..] == d[1..] + rest;
      LeadingDigitsOf(d[1..], rest);
    }
  }

  /** With k leading digits (at most nine) after the separator, the fraction
      is those k digits scaled to nanoseconds, and the rest follows them. */
  lemma FracSecondAt(s: string, k: nat)
    requires |s| >= 2 && (s[0] == '.' || s[0] == ',') && IsDigit(s[1])
    requires LeadingDigits(s[1..]) == k && k <= 9
    ensures FracSecond(s) == Chunk(Scaled(s[1..][..k]), s[1 + k..])
  {
  }

  /** A separator and one to nine digits before the 'Z' give the digits'
      value scaled to nanoseconds. */
  lemma FracSecondOf(sep: char, d: string)
    requires sep == '.' || sep == ','
    requires 1 <= |d| <= 9 && AllDigits(d)
    ensures FracSecond([sep] + d + "Z") == Chunk(Scaled(d), "Z")
  {
    var s := [sep] + d + "Z";
    var tail := s[1..];
    assert tail == d + "Z";
    assert s[0] == sep && s[1] == d[0] && IsDigit(s[1]);
    LeadingDigitsOf(d, "Z");
    FracSecondAt(s, |d|);
    assert tail[..|d|] == d;
    assert s[1 + |d|..] == "Z";
  }

  /** The formatted hour key of a time in years 0 to 9999 is "dddd-dd-ddTdd"
      with the fields at their positions. */
  lemma FormatHourShape(t: Time)
    requires WellFormed(t) && 0 <= t.year <= 9999
    ensures var f := FormatHour(t);
      && |f| == 13 && AllDigits(f[..4]) && Num(f[..4]) == t.year
      && f[4] == '-' && f[7] == '-' && f[10] == 'T'
      && IsDigit(f[5]) && IsDigit(f[6]) && Two(f, 5) == t.month
      && IsDigit(f[8]) && IsDigit(f[9]) && Two(f, 8) == t.day
      && IsDigit(f[11]) && IsDigit(f[12]) && Two(f, 11) == t.hour
  {
    var y, mo, d, h := PadNat(t.year, 4), PadNat(t.month, 2), PadNat(t.day, 2), PadNat(t.hour, 2);
    Pad4Digits(t.year);
    Pad2Digits(t.month);
    Pad2Digits(t.day);
    Pad2Digits(t.hour);
    Num2(mo);
    Num2(d);
    Num2(h);
    var a := y + "-";
    assert a[..4] == y && a[4] == '-' && |a| == 5;
    var b := a + mo;
    assert b[..4] == y && b[4] == '-' && b[5] == mo[0] && b[6] == mo[1] && |b| == 7;
    var c := b + "-" + d;
    assert c[..7] == b && c[7] == '-' && c[8] == d[0] && c[9] == d[1] && |c| == 10;
    var f := c + "T" + h;
    assert f[..10] == c && f[10] == 'T' && f[11] == h[0] && f[12] == h[1];
    assert f == FormatHour(t);
    assert f[..4] == y;
  }

  /** The formatted front up to the seconds has the fixed-width shape, and its
      positions read back the time's fields. */
  lemma FormatSecondsShape(t: Time, tail: string)
    requires WellFormed(t) && 0 <= t.year <= 9999
    ensures var s := FormatSeconds(t) + tail;
      Spells(s, t) && s[19..] == tail && s[..13] == FormatHour(t)
  {
    var f := FormatHour(t);
    FormatHourShape(t);
    var mi, se := PadNat(t.minute, 2), PadNat(t.second, 2);
    Pad2Digits(t.minute);
    Pad2Digits(t.second);
    Num2(mi);
    Num2(se);
    var g := f + ":" + mi + ":" + se;
    assert g == FormatSeconds(t);
    assert g[..13] == f && g[13] == ':' && g[14] == mi[0] && g[15] == mi[1];
    assert g[16] == ':' && g[17] == se[0] && g[18] == se[1] && |g| == 19;
    var s := g + tail;
    assert s[..13] == f && s[..4] == f[..4];
    assert s[19..] == tail;
  }

  /** The ".999" element as Format writes it reads back the milliseconds. */
  lemma MillisFrac(nanos: int)
    requires 0 <= nanos < NanosPerSecond && nanos % 1_000_000 == 0
    ensures FracSecond(Millis(nanos) + "Z") == Chunk(nanos, "Z")
  {
    var ms := nanos / 1_000_000;
    assert nanos == ms * 1_000_000;
    if ms == 0 {
      assert Millis(nanos) + "Z" == "Z";
    } else if ms % 100 == 0 {
      OneMilliDigit(ms);
    } else if ms % 10 == 0 {
      TwoMilliDigits(ms);
    } else {
      ThreeMilliDigits(ms);
    }
  }

  lemma OneMilliDigit(ms: nat)
    requires 0 < ms < 1000 && ms % 100 == 0
    ensures FracSecond(['.', DigitChar(ms / 100)] + "Z") == Chunk(ms * 1_000_000, "Z")
  {
    var d := [DigitChar(ms / 100)];
    assert ['.', DigitChar(ms / 100)] + "Z" == ['.'] + d + "Z";
    FracOfLength1(d);
    assert Num(d) == ms / 100 by { assert d[..0] == []; }
    assert ms == 100 * (ms / 100);
  }

  lemma TwoMilliDigits(ms: nat)
    requires 0 < ms < 1000 && ms % 10 == 0
    ensures FracSecond(['.', DigitChar(ms / 100), DigitChar(ms / 10 % 10)] + "Z") == Chunk(ms * 1_000_000, "Z")
  {
    var d := [DigitChar(ms / 100), DigitChar(ms / 10 % 10)];
    assert ['.', DigitChar(ms / 100), DigitChar(ms / 10 % 10)] + "Z" == ['.'] + d + "Z";
    FracOfLength2(d);
    TwoDigitsOf(ms);
  }

  lemma ThreeMilliDigits(ms: nat)
    requires 0 < ms < 1000
    ensures FracSecond(['.', DigitChar(ms / 100), DigitChar(ms / 10 % 10), DigitChar(ms % 10)] + "Z")
            == Chunk(ms * 1_000_000, "Z")
  {
    var d := [DigitChar(ms / 100), DigitChar(ms / 10 % 10), DigitChar(ms % 10)];
    assert ['.', DigitChar(ms / 100), DigitChar(ms / 10 % 10), DigitChar(ms % 10)] + "Z" == ['.'] + d + "Z";
    FracOfLength3(d);
    ThreeDigitsOf(ms);
  }

  /** The leading two and all three digits of a number below 1000 read back
      as it. */
  lemma TwoDigitsOf(u: nat)
    requires u < 1000 && u % 10 == 0
    ensures 10 * Num([DigitChar(u / 100), DigitChar(u / 10 % 10)]) == u
  {
    Num2([DigitChar(u / 100), DigitChar(u / 10 % 10)]);
    assert u / 10 == 10 * (u / 100) + u / 10 % 10;
  }

  lemma ThreeDigitsOf(u: nat)
    requires u < 1000
    ensures Num([DigitChar(u / 100), DigitChar(u / 10 % 10), DigitChar(u % 10)]) == u
  {
    Num3([DigitChar(u / 100), DigitChar(u / 10 % 10), DigitChar(u % 10)]);
    assert u / 10 == 10 * (u / 100) + u / 10 % 10;
  }

  /** The fraction lemma at the three lengths milliseconds use, with the
      scale written out. */
  lemma FracOfLength1(d: string)
    requires |d| == 1 && AllDigits(d)
    ensures FracSecond(['.'] + d + "Z") == Chunk(Num(d) * 100_000_000, "Z")
  {
    FracSecondOf('.', d);
    assert 9 - |d| == 8 && Pow10(8) == 100_000_000;
  }

  lemma FracOfLength2(d: string)
    requires |d| == 2 && AllDigits(d)
    ensures FracSecond(['.'] + d + "Z") == Chunk(Num(d) * 10_000_000, "Z")
  {
    FracSecondOf('.', d);
    assert 9 - |d| == 7 && Pow10(7) == 10_000_000;
  }

  lemma FracOfLength3(d: string)
    requires |d| == 3 && AllDigits(d)
    ensures FracSecond(['.'] + d + "Z") == Chunk(Num(d) * 1_000_000, "Z")
  {
    FracSecondOf('.', d);
    assert 9 - |d| == 6 && Pow10(6) == 1_000_000;
  }

  /** A timestamp with one to nine fraction digits and a 'Z' parses to the
      time it spells. */
  lemma {:induction false} ParseSpelled(t: Time, sep: char, d: string)
    requires WellFormed(t) && 0 <= t.year <= 9999
    requires sep == '.' || sep == ','
    requires 1 <= |d| <= 9 && AllDigits(d) && Scaled(d) == t.nanos
    ensures Parse(FormatSeconds(t) + ([sep] + d + "Z")) == Some(t)
  {
    var tail := [sep] + d + "Z";
    var s := FormatSeconds(t) + tail;
    FormatSecondsShape(t, tail);
    FracSecondOf(sep, d);
    HeadShapeAccepts(s, t);
  }

  /** Parsing inverts formatting with the same layout, for every time the
      layout can write without loss (years 0 to 9999, whole milliseconds). */
  lemma ParseFormat(t: Time)
    requires WellFormed(t) && 0 <= t.year <= 9999 && t.nanos % 1_000_000 == 0
    ensures Parse(Format(t)) == Some(t)
  {
    var tail := Millis(t.nanos) + "Z";
    var s := FormatSeconds(t) + tail;
    assert Format(t) == s;
    FormatSecondsShape(t, tail);
    MillisFrac(t.nanos);
    HeadShapeAccepts(s, t);
  }

  /** Different times the layout writes without loss are written differently. */
  lemma FormatInjective(a: Time, b: Time)
    requires WellFormed(a) && 0 <= a.year <= 9999 && a.nanos % 1_000_000 == 0
    requires WellFormed(b) && 0 <= b.year <= 9999 && b.nanos % 1_000_000 == 0
    ensures Format(a) == Format(b) <==> a == b
  {
    ParseFormat(a);
    ParseFormat(b);
  }
}
