/** The creation times GitHub reports, read with
    datetime.strptime(s, "%Y-%m-%dT%H:%M:%SZ") (main.py:68, 73, 127). */
module Timestamps {
  import opened Wrappers

  /** A naive UTC datetime to whole-second precision. */
  datatype Stamp = Stamp(year: int, month: int, day: int, hour: int, minute: int, second: int)

  predicate IsLeapYear(y: int)
  {
    y % 4 == 0 && (y % 100 != 0 || y % 400 == 0)
  }

  function DaysInMonth(year: int, month: int): (n: int)
    requires 1 <= month <= 12
    ensures 28 <= n <= 31
    ensures n == 29 <==> month == 2 && IsLeapYear(year)
  {
    if month == 2 then (if IsLeapYear(year) then 29 else 28)
    else if month == 4 || month == 6 || month == 9 || month == 11 then 30
    else 31
  }

  /** The values the datetime constructor accepts: years 1 to 9999, real calendar
      days, and seconds up to 59 (there are no leap seconds in datetime). */
  predicate Valid(t: Stamp)
  {
    && 1 <= t.year <= 9999
    && 1 <= t.month <= 12
    && 1 <= t.day <= DaysInMonth(t.year, t.month)
    && 0 <= t.hour < 24
    && 0 <= t.minute < 60
    && 0 <= t.second < 60
  }

  /** a is strictly earlier than b: datetime's order, which on valid values is the
      lexicographic order of the six fields. */
  predicate Before(a: Stamp, b: Stamp)
  {
    || a.year < b.year
    || (a.year == b.year && a.month < b.month)
    || (a.year == b.year && a.month == b.month && a.day < b.day)
    || (a.year == b.year && a.month == b.month && a.day == b.day && a.hour < b.hour)
    || (a.year == b.year && a.month == b.month && a.day == b.day && a.hour == b.hour
        && a.minute < b.minute)
    || (a.year == b.year && a.month == b.month && a.day == b.day && a.hour == b.hour
        && a.minute == b.minute && a.second < b.second)
  }

  lemma BeforeIsStrictTotalOrder(a: Stamp, b: Stamp, c: Stamp)
    ensures !Before(a, a)
    ensures Before(a, b) ==> !Before(b, a)
    ensures Before(a, b) && Before(b, c) ==> Before(a, c)
    ensures Before(a, b) || a == b || Before(b, a)
  {
  }

  predicate IsDigit(c: char)
  {
    '0' <= c <= '9'
  }

  predicate AllDigits(s: string)
  {
    forall i :: 0 <= i < |s| ==> IsDigit(s[i])
  }

  function Pow10(n: nat): (p: nat)
    ensures p >= 1
  {
    if n == 0 then 1 else 10 * Pow10(n - 1)
  }

  /** The decimal value of a string of digits, most significant first. */
  function DecimalValue(s: string): (v: nat)
    requires AllDigits(s)
    ensures v < Pow10(|s|)
    decreases |s|
  {
    if s == [] then 0
    else DecimalValue(s[..|s| - 1]) * 10 + (s[|s| - 1] as int - '0' as int)
  }

  /** The last `width` decimal digits of v, with leading zeros: strftime's %Y, %m, ... */
  function Digits(v: nat, width: nat): (s: string)
    ensures |s| == width && AllDigits(s)
  {
    if width == 0 then []
    else Digits(v / 10, width - 1) + [('0' as int + v % 10) as char]
  }

  /** The fixed positions of "%Y-%m-%dT%H:%M:%SZ". strptime matches its format
      ignoring case, so a lower-case 't' or 'z' is accepted as well. */
  predicate HasLayout(s: string)
  {
    && |s| == 20
    && AllDigits(s[0..4]) && s[4] == '-'
    && AllDigits(s[5..7]) && s[7] == '-'
    && AllDigits(s[8..10]) && (s[10] == 'T' || s[10] == 't')
    && AllDigits(s[11..13]) && s[13] == ':'
    && AllDigits(s[14..16]) && s[16] == ':'
    && AllDigits(s[17..19]) && (s[19] == 'Z' || s[19] == 'z')
  }

  /** datetime.strptime(s, "%Y-%m-%dT%H:%M:%SZ"), None where it raises ValueError. */
  function Parse(s: string): (r: Option<Stamp>)
    ensures r.Some? ==> HasLayout(s) && Valid(r.value)
  {
    if HasLayout(s) then
      var t := Stamp(DecimalValue(s[0..4]), DecimalValue(s[5..7]), DecimalValue(s[8..10]),
                     DecimalValue(s[11..13]), DecimalValue(s[14..16]), DecimalValue(s[17..19]));
      if Valid(t) then Some(t) else None
    else None
  }

  /** The canonical spelling of a stamp, as GitHub writes it. */
  function Format(t: Stamp): (s: string)
    requires Valid(t)
    ensures |s| == 20
  {
    Digits(t.year, 4) + "-" + Digits(t.month, 2) + "-" + Digits(t.day, 2) + "T"
    + Digits(t.hour, 2) + ":" + Digits(t.minute, 2) + ":" + Digits(t.second, 2) + "Z"
  }

  lemma {:induction false} DigitsRoundTrip(v: nat, width: nat)
    requires v < Pow10(width)
    ensures DecimalValue(Digits(v, width)) == v
  {
    if width > 0 {
      DigitsRoundTrip(v / 10, width - 1);
      var s := Digits(v, width);
      assert s[..|s| - 1] == Digits(v / 10, width - 1);
    }
  }

  lemma {:induction false} DecimalRoundTrip(s: string)
    requires AllDigits(s)
    ensures Digits(DecimalValue(s), |s|) == s
    decreases |s|
  {
    if s != [] {
      var p := s[..|s| - 1];
      DecimalRoundTrip(p);
      var v := DecimalValue(s);
      assert v / 10 == DecimalValue(p);
      assert v % 10 == s[|s| - 1] as int - '0' as int;
      assert s == p + [s[|s| - 1]];
    }
  }

  /** Every valid stamp reads back from its canonical spelling. */
  lemma FormatThenParse(t: Stamp)
    requires Valid(t)
    ensures Parse(Format(t)) == Some(t)
  {
    var s := Format(t);
    DigitsRoundTrip(t.year, 4);
    DigitsRoundTrip(t.month, 2);
    DigitsRoundTrip(t.day, 2);
    DigitsRoundTrip(t.hour, 2);
    DigitsRoundTrip(t.minute, 2);
    DigitsRoundTrip(t.second, 2);
    assert s[0..4] == Digits(t.year, 4);
    assert s[5..7] == Digits(t.month, 2);
    assert s[8..10] == Digits(t.day, 2);
    assert s[11..13] == Digits(t.hour, 2);
    assert s[14..16] == Digits(t.minute, 2);
    assert s[17..19] == Digits(t.second, 2);
  }

  /** A string that parses and uses the upper-case 'T' and 'Z' is the canonical
      spelling of its stamp, so distinct such strings denote distinct stamps. */
  lemma ParseThenFormat(s: string)
    requires Parse(s).Some? && s[10] == 'T' && s[19] == 'Z'
    ensures Format(Parse(s).value) == s
  {
    DecimalRoundTrip(s[0..4]);
    DecimalRoundTrip(s[5..7]);
    DecimalRoundTrip(s[8..10]);
    DecimalRoundTrip(s[11..13]);
    DecimalRoundTrip(s[14..16]);
    DecimalRoundTrip(s[17..19]);
    assert s == s[0..4] + [s[4]] + s[5..7] + [s[7]] + s[8..10] + [s[10]]
              + s[11..13] + [s[13]] + s[14..16] + [s[16]] + s[17..19] + [s[19]];
  }

  /** The Gregorian rule: February 29th exists in years divisible by 4, except
      centuries not divisible by 400. */
  lemma LeapDays()
    ensures Valid(Stamp(2024, 2, 29, 0, 0, 0)) && !Valid(Stamp(2023, 2, 29, 0, 0, 0))
    ensures Valid(Stamp(2000, 2, 29, 0, 0, 0)) && !Valid(Stamp(1900, 2, 29, 0, 0, 0))
    ensures !Valid(Stamp(2023, 12, 31, 23, 59, 60)) && !Valid(Stamp(0, 1, 1, 0, 0, 0))
  {
  }
}
