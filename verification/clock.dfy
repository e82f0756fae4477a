/** Local wall-clock arithmetic: day numbers, weekdays and the `HH:mm` labels that slot
    listing prints and booking parses back.

    An instant is a whole number of minutes since a local-time epoch that begins at
    midnight of 1970-01-01; day `d` begins at minute `d * MinutesPerDay`. */
module Clock {
  import opened Wrappers

  const MinutesPerDay: int := 1440

  /** A time of day in whole minutes, 00:00 to 23:59. */
  type MinuteOfDay = m: int | 0 <= m < 1440

  /** `getDay()` of a local date: 0 is Sunday; day 0 (1970-01-01) was a Thursday. */
  function Weekday(day: int): (wd: int)
    ensures 0 <= wd < 7
    ensures (wd - day - 4) % 7 == 0
  {
    (day + 4) % 7
  }

  /** First minute of `day`. */
  function DayStart(day: int): int {
    day * MinutesPerDay
  }

  /** The time of day of an instant. */
  function TimeOfDay(t: int): MinuteOfDay {
    t % MinutesPerDay
  }

  function DigitChar(d: int): (c: char)
    requires 0 <= d < 10
    ensures '0' <= c <= '9'
  {
    (48 + d) as char
  }

  predicate IsDigitChar(c: char) {
    '0' <= c <= '9'
  }

  function DigitValue(c: char): (d: int)
    requires IsDigitChar(c)
    ensures 0 <= d < 10
  {
    c as int - 48
  }

  /** Two-digit, zero-padded rendering of `0 <= n < 100`. */
  function Pad2(n: int): (s: string)
    requires 0 <= n < 100
  {
    [DigitChar(n / 10), DigitChar(n % 10)]
  }

  /** `format(_, 'HH:mm')`: 24-hour clock, both fields zero-padded. */
  function FormatHHmm(m: MinuteOfDay): (s: string)
    ensures |s| == 5 && s[2] == ':'
    ensures IsDigitChar(s[0]) && IsDigitChar(s[1]) && IsDigitChar(s[3]) && IsDigitChar(s[4])
  {
    Pad2(m / 60) + [':'] + Pad2(m % 60)
  }

  /** The label printed for a slot that starts at instant `t`. */
  function Label(t: int): string {
    FormatHHmm(TimeOfDay(t))
  }

  /** `parse(_, 'HH:mm')` restricted to the two-digit form: `None` when the text is not a
      valid time of day (date-fns then yields an Invalid Date). */
  function ParseHHmm(s: string): (r: Option<MinuteOfDay>)
    ensures r.Some? ==> |s| == 5 && s[2] == ':'
  {
    if |s| == 5 && IsDigitChar(s[0]) && IsDigitChar(s[1]) && s[2] == ':'
       && IsDigitChar(s[3]) && IsDigitChar(s[4]) then
      var h := 10 * DigitValue(s[0]) + DigitValue(s[1]);
      var mi := 10 * DigitValue(s[3]) + DigitValue(s[4]);
      if h < 24 && mi < 60 then Some(60 * h + mi) else None
    else
      None
  }

  /** Every label parses back to the time of day it was printed from. */
  lemma ParseFormatRoundTrip(m: MinuteOfDay)
    ensures ParseHHmm(FormatHHmm(m)) == Some(m)
  {
    var s := FormatHHmm(m);
    var h, mi := m / 60, m % 60;
    assert s[0] == DigitChar(h / 10) && s[1] == DigitChar(h % 10);
    assert s[3] == DigitChar(mi / 10) && s[4] == DigitChar(mi % 10);
    assert DigitValue(s[0]) == h / 10 && DigitValue(s[1]) == h % 10;
    assert DigitValue(s[3]) == mi / 10 && DigitValue(s[4]) == mi % 10;
    assert 10 * (h / 10) + h % 10 == h;
    assert 10 * (mi / 10) + mi % 10 == mi;
  }

  /** Every accepted time text is exactly the label of the time it denotes, so distinct
      labels never name the same minute. */
  lemma FormatParseRoundTrip(s: string)
    requires ParseHHmm(s).Some?
    ensures FormatHHmm(ParseHHmm(s).value) == s
  {
    var h := 10 * DigitValue(s[0]) + DigitValue(s[1]);
    var mi := 10 * DigitValue(s[3]) + DigitValue(s[4]);
    var m := 60 * h + mi;
    assert m / 60 == h && m % 60 == mi;
    assert h / 10 == DigitValue(s[0]) && h % 10 == DigitValue(s[1]);
    assert mi / 10 == DigitValue(s[3]) && mi % 10 == DigitValue(s[4]);
    var f := FormatHHmm(m);
    assert f[0] == s[0] && f[1] == s[1] && f[2] == s[2] && f[3] == s[3] && f[4] == s[4];
  }

  /** An instant of `day` is labelled with its offset from the day's midnight, and that
      label parses back to the same offset. */
  lemma LabelWithinDay(day: int, t: int)
    requires DayStart(day) <= t < DayStart(day) + MinutesPerDay
    ensures TimeOfDay(t) == t - DayStart(day)
    ensures ParseHHmm(Label(t)) == Some(t - DayStart(day))
  {
    ParseFormatRoundTrip(TimeOfDay(t));
  }
}
