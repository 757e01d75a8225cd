/** Calendar dates and clock times as the meeting handlers check them. PHP's
    `DateTime::createFromFormat('Y-m-d', $s)` followed by a comparison of
    `->format('Y-m-d')` with `$s` accepts exactly the canonical spellings of real
    calendar dates (an overflowing day such as 2024-02-30 rolls over to another date
    and fails the comparison); the same holds for 'H:i' and clock times. */
module Calendar {
  import opened Php

  datatype Date = Date(year: int, month: int, day: int)
  datatype Time = Time(hour: int, minute: int)

  predicate IsLeapYear(y: int) {
    y % 4 == 0 && (y % 100 != 0 || y % 400 == 0)
  }

  function DaysInMonth(y: int, m: int): (n: int)
    requires 1 <= m <= 12
    ensures 28 <= n <= 31
  {
    if m == 2 then (if IsLeapYear(y) then 29 else 28)
    else if m == 4 || m == 6 || m == 9 || m == 11 then 30
    else 31
  }

  /** A real calendar date whose year 'Y' prints with exactly four digits. */
  predicate ValidDate(d: Date) {
    0 <= d.year <= 9999 && 1 <= d.month <= 12 && 1 <= d.day <= DaysInMonth(d.year, d.month)
  }

  predicate ValidTime(t: Time) {
    0 <= t.hour < 24 && 0 <= t.minute < 60
  }

  /** `->format('Y-m-d')`. */
  function FormatDate(d: Date): (s: string)
    requires ValidDate(d)
    ensures |s| == 10
  {
    FixedDigits(d.year, 4) + "-" + FixedDigits(d.month, 2) + "-" + FixedDigits(d.day, 2)
  }

  /** `->format('H:i')`. */
  function FormatTime(t: Time): (s: string)
    requires ValidTime(t)
    ensures |s| == 5
  {
    FixedDigits(t.hour, 2) + ":" + FixedDigits(t.minute, 2)
  }

  /** The strict date check: `Some(d)` exactly when `s` is the canonical `YYYY-MM-DD`
      spelling of the valid date `d`. */
  function ParseDate(s: string): (r: Option<Date>)
    ensures r.Some? ==> ValidDate(r.value) && FormatDate(r.value) == s
  {
    if |s| == 10 && s[4] == '-' && s[7] == '-'
       && AllDigits(s[..4]) && AllDigits(s[5..7]) && AllDigits(s[8..])
    then
      var d := Date(DigitsValue(s[..4]), DigitsValue(s[5..7]), DigitsValue(s[8..]));
      if ValidDate(d) then
        DigitsRoundTrip(s[..4]);
        DigitsRoundTrip(s[5..7]);
        DigitsRoundTrip(s[8..]);
        assert s == s[..4] + "-" + s[5..7] + "-" + s[8..];
        Some(d)
      else None
    else None
  }

  /** The strict time check: `Some(t)` exactly when `s` is the canonical `HH:MM`
      spelling of the clock time `t`. */
  function ParseTime(s: string): (r: Option<Time>)
    ensures r.Some? ==> ValidTime(r.value) && FormatTime(r.value) == s
  {
    if |s| == 5 && s[2] == ':' && AllDigits(s[..2]) && AllDigits(s[3..]) then
      var t := Time(DigitsValue(s[..2]), DigitsValue(s[3..]));
      if ValidTime(t) then
        DigitsRoundTrip(s[..2]);
        DigitsRoundTrip(s[3..]);
        assert s == s[..2] + ":" + s[3..];
        Some(t)
      else None
    else None
  }

  /** Every valid date's canonical spelling is accepted, as that date. */
  lemma FormatParseDate(d: Date)
    requires ValidDate(d)
    ensures ParseDate(FormatDate(d)) == Some(d)
  {
    var s := FormatDate(d);
    assert s[..4] == FixedDigits(d.year, 4);
    assert s[5..7] == FixedDigits(d.month, 2);
    assert s[8..] == FixedDigits(d.day, 2);
    FixedDigitsRoundTrip(d.year, 4);
    FixedDigitsRoundTrip(d.month, 2);
    FixedDigitsRoundTrip(d.day, 2);
  }

  /** Every valid time's canonical spelling is accepted, as that time. */
  lemma FormatParseTime(t: Time)
    requires ValidTime(t)
    ensures ParseTime(FormatTime(t)) == Some(t)
  {
    var s := FormatTime(t);
    assert s[..2] == FixedDigits(t.hour, 2);
    assert s[3..] == FixedDigits(t.minute, 2);
    FixedDigitsRoundTrip(t.hour, 2);
    FixedDigitsRoundTrip(t.minute, 2);
  }

  lemma TwoDigitsValue(s: string)
    requires |s| == 2 && AllDigits(s)
    ensures DigitsValue(s) == DigitValue(s[0]) * 10 + DigitValue(s[1])
  {
    var init := s[..1];
    assert init[..0] == [] && init[0] == s[0];
    assert DigitsValue(init) == DigitValue(s[0]);
  }

  /** No year has a February 30th, not even a leap year: such a spelling is refused. */
  lemma February30Rejected(s: string)
    requires |s| == 10 && s[5..7] == "02" && s[8..] == "30"
    ensures ParseDate(s) == None
  {
    if ParseDate(s).Some? {
      var d := ParseDate(s).value;
      assert s[5..7] == FixedDigits(d.month, 2) && s[8..] == FixedDigits(d.day, 2);
      FixedDigitsRoundTrip(d.month, 2);
      FixedDigitsRoundTrip(d.day, 2);
      TwoDigitsValue(s[5..7]);
      TwoDigitsValue(s[8..]);
      assert false;
    }
  }

  /** Calendar order: `a` is an earlier day than `b` (time of day plays no part). */
  predicate Before(a: Date, b: Date) {
    a.year < b.year
    || (a.year == b.year && (a.month < b.month || (a.month == b.month && a.day < b.day)))
  }
}
