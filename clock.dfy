/** The widget's clock formatter: an (hours, minutes) reading of the wall
    clock rendered as a 12-hour string such as "3:07 PM" or "12:05 AM".

    The formatter is written here over the two numbers a `Date` hands it
    (`getHours()` in 0..23, `getMinutes()` in 0..59) rather than over a `Date`.
    `DecimalString` and `PadStart` model the two JavaScript library calls the
    formatter uses on the minutes (`Number.prototype.toString` and
    `String.prototype.padStart`), and `ParseClock` is a reader for the strings
    the formatter produces, used to state that the formatting loses nothing. */
module Clock {

  datatype Option<T> = None | Some(value: T)

  /** A wall-clock reading: what `getHours()` and `getMinutes()` return. */
  datatype ClockTime = ClockTime(hours: int, minutes: int)

  predicate ValidTime(t: ClockTime) {
    0 <= t.hours < 24 && 0 <= t.minutes < 60
  }

  // ----- decimal digits -----

  predicate IsDigit(c: char) {
    '0' <= c <= '9'
  }

  predicate AllDigits(s: string) {
    forall i :: 0 <= i < |s| ==> IsDigit(s[i])
  }

  /** One or two decimal digits: every numeral this formatter writes or reads. */
  predicate ShortNumeral(s: string) {
    1 <= |s| <= 2 && AllDigits(s)
  }

  function DigitValue(c: char): (d: int)
    requires IsDigit(c)
    ensures 0 <= d < 10
  {
    c as int - '0' as int
  }

  function DigitChar(d: int): (c: char)
    requires 0 <= d < 10
    ensures IsDigit(c) && DigitValue(c) == d
  {
    ('0' as int + d) as char
  }

  /** The number a one- or two-digit numeral denotes. */
  function NumeralValue(s: string): int
    requires ShortNumeral(s)
  {
    if |s| == 1 then DigitValue(s[0]) else 10 * DigitValue(s[0]) + DigitValue(s[1])
  }

  /** `n.toString()` for the integers below 100 the formatter passes it (a
      shown hour 1..12 or a minute 0..59): the shortest decimal spelling,
      with no leading zero. */
  function DecimalString(n: int): (s: string)
    requires 0 <= n < 100
    ensures ShortNumeral(s) && NumeralValue(s) == n
    ensures |s| == 1 <==> n < 10
    ensures s[0] == '0' <==> n == 0
  {
    if n < 10 then [DigitChar(n)] else [DigitChar(n / 10), DigitChar(n % 10)]
  }

  /** `n` copies of `c`. */
  function Repeat(c: char, n: nat): (r: string)
    ensures |r| == n
    ensures forall i :: 0 <= i < n ==> r[i] == c
  {
    if n == 0 then [] else [c] + Repeat(c, n - 1)
  }

  /** `s.padStart(width, fill)` with a one-character pad string: `s` itself
      when it is already `width` long or longer, otherwise `s` preceded by as
      many copies of `fill` as make it `width` long. */
  function PadStart(s: string, width: nat, fill: char): (r: string)
    ensures |r| == if |s| < width then width else |s|
  {
    if |s| < width then Repeat(fill, width - |s|) + s else s
  }

  // ----- the three fields of the rendered string -----

  /** The hour as shown: `hours % 12 || 12`, so 0 and 12 both show as 12. */
  function DisplayHour(hours: int): (h: int)
    requires 0 <= hours < 24
    ensures 1 <= h <= 12
    ensures h == 12 <==> hours == 0 || hours == 12
    ensures h % 12 == hours % 12
  {
    var r := hours % 12;
    if r == 0 then 12 else r
  }

  /** The meridiem suffix, chosen by `hours >= 12`. */
  function Meridiem(hours: int): string {
    if hours >= 12 then "PM" else "AM"
  }

  /** The minutes as shown: `minutes.toString().padStart(2, "0")`. */
  function MinuteField(minutes: int): (r: string)
    requires 0 <= minutes < 60
    ensures |r| == 2 && ShortNumeral(r) && NumeralValue(r) == minutes
    ensures r[0] == '0' <==> minutes < 10
  {
    var d := DecimalString(minutes);
    var r := PadStart(d, 2, '0');
    assert minutes < 10 ==> r == ['0'] + d by {
      assert Repeat('0', 1) == ['0'];
    }
    r
  }

  /** `formatTime`: `<hour>:<minutes> <AM|PM>`. */
  function FormatTime(hours: int, minutes: int): string
    requires 0 <= hours < 24 && 0 <= minutes < 60
  {
    DecimalString(DisplayHour(hours)) + ":" + MinuteField(minutes) + " " + Meridiem(hours)
  }

  // ----- the shape of a rendered time, and a reader for it -----

  /** The text before the ":" of a string of the rendered shape. */
  function HourText(s: string): string
    requires |s| >= 6
  {
    s[..|s| - 6]
  }

  /** The two characters between the ":" and the space. */
  function MinuteText(s: string): string
    requires |s| >= 6
  {
    s[|s| - 5..|s| - 3]
  }

  /** The last two characters. */
  function SuffixText(s: string): string
    requires |s| >= 2
  {
    s[|s| - 2..]
  }

  /** `H:MM AM` or `H:MM PM` with H one or two digits without a leading zero. */
  predicate TwelveHourShape(s: string) {
    (|s| == 7 || |s| == 8)
    && ShortNumeral(HourText(s)) && s[0] != '0'
    && s[|s| - 6] == ':'
    && ShortNumeral(MinuteText(s))
    && s[|s| - 3] == ' '
    && (SuffixText(s) == "AM" || SuffixText(s) == "PM")
  }

  /** The 24-hour hour that a shown hour (1..12) and a suffix stand for. */
  function HourOf(shown: int, pm: bool): int {
    if pm then (if shown == 12 then 12 else shown + 12)
    else (if shown == 12 then 0 else shown)
  }

  /** Reads back a string of the rendered shape; `None` for anything else,
      including an hour outside 1..12 or minutes outside 0..59. */
  function ParseClock(s: string): Option<ClockTime> {
    if !TwelveHourShape(s) then None
    else
      var shown := NumeralValue(HourText(s));
      var minutes := NumeralValue(MinuteText(s));
      if 1 <= shown <= 12 && minutes < 60 then
        Some(ClockTime(HourOf(shown, SuffixText(s) == "PM"), minutes))
      else None
  }

  // ----- properties of the formatter -----

  /** Where the three fields of `a + ":" + b + " " + c` sit, for two-character
      `b` and `c`. */
  lemma Fields(a: string, b: string, c: string)
    requires |b| == 2 && |c| == 2
    ensures var s := a + ":" + b + " " + c;
      |s| == |a| + 6 && HourText(s) == a && s[|s| - 6] == ':'
      && MinuteText(s) == b && s[|s| - 3] == ' ' && SuffixText(s) == c
      && (|a| > 0 ==> s[0] == a[0])
  {
  }

  /** The rendered string splits into its three fields at fixed places
      counted from the end. */
  lemma FormatTimeFields(hours: int, minutes: int)
    requires 0 <= hours < 24 && 0 <= minutes < 60
    ensures var s := FormatTime(hours, minutes);
      |s| >= 7
      && HourText(s) == DecimalString(DisplayHour(hours))
      && s[|s| - 6] == ':'
      && MinuteText(s) == MinuteField(minutes)
      && s[|s| - 3] == ' '
      && SuffixText(s) == Meridiem(hours)
      && s[0] != '0'
  {
    var a, b, c := DecimalString(DisplayHour(hours)), MinuteField(minutes), Meridiem(hours);
    assert |a| >= 1 && a[0] != '0' && |b| == 2 && |c| == 2;
    Fields(a, b, c);
  }

  /** Every reading renders as `H:MM AM|PM` with no leading zero on H; the
      string is seven characters long for the shown hours 1..9 and eight for
      10..12. */
  lemma FormatTimeShape(hours: int, minutes: int)
    requires 0 <= hours < 24 && 0 <= minutes < 60
    ensures TwelveHourShape(FormatTime(hours, minutes))
    ensures |FormatTime(hours, minutes)| == 7 <==> DisplayHour(hours) <= 9
  {
    FormatTimeFields(hours, minutes);
  }

  /** The shown hour is a number in 1..12 congruent to the hour modulo 12;
      hours 0 and 12, and only they, show as "12". */
  lemma FormatTimeHour(hours: int, minutes: int)
    requires 0 <= hours < 24 && 0 <= minutes < 60
    ensures var s := FormatTime(hours, minutes);
      |s| >= 6 && ShortNumeral(HourText(s))
      && 1 <= NumeralValue(HourText(s)) <= 12
      && NumeralValue(HourText(s)) % 12 == hours % 12
      && (HourText(s) == "12" <==> hours == 0 || hours == 12)
  {
    FormatTimeFields(hours, minutes);
    assert NumeralValue("12") == 12;
  }

  /** The suffix is "PM" exactly for the hours 12..23 and "AM" exactly for
      0..11. */
  lemma FormatTimeSuffix(hours: int, minutes: int)
    requires 0 <= hours < 24 && 0 <= minutes < 60
    ensures var s := FormatTime(hours, minutes);
      |s| >= 2
      && (SuffixText(s) == "PM" <==> hours >= 12)
      && (SuffixText(s) == "AM" <==> hours < 12)
  {
    FormatTimeFields(hours, minutes);
  }

  /** The minutes are always exactly two decimal digits denoting the minute,
      with a leading "0" exactly below ten. */
  lemma FormatTimeMinutes(hours: int, minutes: int)
    requires 0 <= hours < 24 && 0 <= minutes < 60
    ensures var s := FormatTime(hours, minutes);
      |s| >= 6
      && |MinuteText(s)| == 2 && ShortNumeral(MinuteText(s))
      && NumeralValue(MinuteText(s)) == minutes
      && (MinuteText(s)[0] == '0' <==> minutes < 10)
  {
    FormatTimeFields(hours, minutes);
  }

  /** Sample renderings: the midnight hour, an afternoon hour, a padded
      minute and noon. */
  lemma FormatTimeExamples()
    ensures FormatTime(0, 5) == "12:05 AM"
    ensures FormatTime(13, 0) == "1:00 PM"
    ensures FormatTime(15, 7) == "3:07 PM"
    ensures FormatTime(12, 30) == "12:30 PM"
  {
    assert DecimalString(12) == "12" && DecimalString(1) == "1" && DecimalString(3) == "3";
    assert MinuteField(5) == "05" && MinuteField(0) == "00";
    assert MinuteField(7) == "07" && MinuteField(30) == "30";
  }

  /** The (shown hour, suffix) pair determines the 24-hour hour. */
  lemma HourOfDisplayHour(hours: int)
    requires 0 <= hours < 24
    ensures HourOf(DisplayHour(hours), Meridiem(hours) == "PM") == hours
  {
  }

  /** Reading back a rendered time gives the reading it came from. */
  lemma ParseFormatTime(hours: int, minutes: int)
    requires 0 <= hours < 24 && 0 <= minutes < 60
    ensures ParseClock(FormatTime(hours, minutes)) == Some(ClockTime(hours, minutes))
  {
    FormatTimeFields(hours, minutes);
    HourOfDisplayHour(hours);
  }

  /** Two distinct readings never render the same. */
  lemma FormatTimeInjective(h1: int, m1: int, h2: int, m2: int)
    requires 0 <= h1 < 24 && 0 <= m1 < 60
    requires 0 <= h2 < 24 && 0 <= m2 < 60
    requires FormatTime(h1, m1) == FormatTime(h2, m2)
    ensures h1 == h2 && m1 == m2
  {
    ParseFormatTime(h1, m1);
    ParseFormatTime(h2, m2);
  }

  /** A numeral without a leading zero is the decimal spelling of its value. */
  lemma DecimalStringOfNumeral(d: string)
    requires ShortNumeral(d) && (|d| == 2 ==> d[0] != '0')
    ensures DecimalString(NumeralValue(d)) == d
  {
  }

  /** Two digits that denote a minute are the rendered minute field. */
  lemma MinuteFieldOfNumeral(d: string)
    requires |d| == 2 && ShortNumeral(d) && NumeralValue(d) < 60
    ensures MinuteField(NumeralValue(d)) == d
  {
  }

  /** What the reader makes of the hour field and the suffix renders back
      to them. */
  lemma HourOfRendered(h: string, pm: bool)
    requires ShortNumeral(h) && 1 <= NumeralValue(h) <= 12
    ensures var hours := HourOf(NumeralValue(h), pm);
      0 <= hours < 24 && DisplayHour(hours) == NumeralValue(h)
      && Meridiem(hours) == if pm then "PM" else "AM"
  {
  }

  /** The reader accepts only rendered times: whatever it reads is a valid
      reading that renders back to exactly the string read. */
  lemma FormatParseClock(s: string)
    requires ParseClock(s).Some?
    ensures ValidTime(ParseClock(s).value)
    ensures FormatTime(ParseClock(s).value.hours, ParseClock(s).value.minutes) == s
  {
    var t := ParseClock(s).value;
    var h, m, x := HourText(s), MinuteText(s), SuffixText(s);
    assert h[0] == s[0];
    HourOfRendered(h, x == "PM");
    DecimalStringOfNumeral(h);
    MinuteFieldOfNumeral(m);
    Fields(h, m, x);
    assert s == h + ":" + m + " " + x;
  }
}
