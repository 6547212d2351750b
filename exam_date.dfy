/**
 * The exam-date check of the add-subject handler: `datetime.strptime(s, "%Y-%m-%d")`
 * succeeds or raises. CPython's `_strptime` matches `%Y` as exactly four digits,
 * `%m` as `1[0-2]|0[1-9]|[1-9]` and `%d` as `3[01]|[12]\d|0[1-9]|[1-9]| [1-9]`,
 * requires the whole string to be consumed, and then builds a date, which
 * rejects year 0 and a day past the end of its month.
 */
module ExamDate {
  import opened Wrappers

  datatype Date = Date(year: int, month: int, day: int)

  predicate IsDigit(c: char) { '0' <= c <= '9' }

  predicate AllDigits(s: string) { forall k :: 0 <= k < |s| ==> IsDigit(s[k]) }

  function DigitValue(c: char): (v: nat)
    requires IsDigit(c)
    ensures v <= 9
  {
    (c as int) - ('0' as int)
  }

  function DigitChar(v: nat): (c: char)
    requires v <= 9
    ensures IsDigit(c) && DigitValue(c) == v
  {
    (('0' as int) + v) as char
  }

  /** The number a run of decimal digits denotes (what `int(...)` gives for it). */
  function DigitsValue(s: string): (v: nat)
    requires AllDigits(s)
  {
    if s == [] then 0 else DigitsValue(s[..|s| - 1]) * 10 + DigitValue(s[|s| - 1])
  }

  predicate IsLeapYear(y: int) {
    y % 4 == 0 && (y % 100 != 0 || y % 400 == 0)
  }

  /** Days in month `m` of year `y` in the proleptic Gregorian calendar. */
  function DaysInMonth(y: int, m: int): (n: int)
    requires 1 <= m <= 12
    ensures 28 <= n <= 31
    ensures n == 29 <==> m == 2 && IsLeapYear(y)
    ensures n == 28 <==> m == 2 && !IsLeapYear(y)
    ensures n == 30 <==> m in {4, 6, 9, 11}
  {
    if m == 2 then (if IsLeapYear(y) then 29 else 28)
    else if m in {4, 6, 9, 11} then 30
    else 31
  }

  /** The dates Python's `datetime.date` can represent. */
  predicate IsCalendarDate(d: Date) {
    1 <= d.year <= 9999 && 1 <= d.month <= 12 && 1 <= d.day <= DaysInMonth(d.year, d.month)
  }

  /** The text `%m` matches: `1[0-2]|0[1-9]|[1-9]`. */
  predicate IsMonthToken(t: string) {
    || (|t| == 1 && '1' <= t[0] <= '9')
    || (|t| == 2 && t[0] == '0' && '1' <= t[1] <= '9')
    || (|t| == 2 && t[0] == '1' && '0' <= t[1] <= '2')
  }

  /** The text `%d` matches: `3[01]|[12]\d|0[1-9]|[1-9]| [1-9]`. */
  predicate IsDayToken(t: string) {
    || (|t| == 1 && '1' <= t[0] <= '9')
    || (|t| == 2 && t[0] == '0' && '1' <= t[1] <= '9')
    || (|t| == 2 && (t[0] == '1' || t[0] == '2') && IsDigit(t[1]))
    || (|t| == 2 && t[0] == '3' && (t[1] == '0' || t[1] == '1'))
    || (|t| == 2 && t[0] == ' ' && '1' <= t[1] <= '9')
  }

  /** `int(...)` of a day token; a space-padded day is read without its space. */
  function DayValue(t: string): nat
    requires IsDayToken(t)
  {
    if t[0] == ' ' then DigitValue(t[1]) else DigitsValue(t)
  }

  /**
   * `datetime.strptime(s, "%Y-%m-%d")`: `Some` of the date it parses,
   * `None` where it raises `ValueError`. The month token ends at the second
   * `-`, which stands at index 6 or 7; the day token is everything after it.
   */
  function ParseDate(s: string): (r: Option<Date>)
    ensures r.Some? ==> IsCalendarDate(r.value)
  {
    if |s| < 7 || !AllDigits(s[..4]) || s[4] != '-' then None
    else
      var k := if s[6] == '-' then 6 else 7;
      if |s| <= k || s[k] != '-' || !IsMonthToken(s[5..k]) || !IsDayToken(s[k + 1..]) then None
      else
        var d := Date(DigitsValue(s[..4]), DigitsValue(s[5..k]), DayValue(s[k + 1..]));
        if IsCalendarDate(d) then Some(d) else None
  }

  /** How a month or day below 10 is written: `7`, `07` or (days only) ` 7`. */
  datatype Pad = Unpadded | ZeroPadded | SpacePadded

  /** A value in 1..99 as text; two digits from 10 on, whatever the padding. */
  function TwoDigits(n: nat, pad: Pad): (t: string)
    requires 1 <= n <= 99
  {
    if n >= 10 then [DigitChar(n / 10), DigitChar(n % 10)]
    else match pad
      case Unpadded => [DigitChar(n)]
      case ZeroPadded => ['0', DigitChar(n)]
      case SpacePadded => [' ', DigitChar(n)]
  }

  /** A year in 0..9999 as exactly four digits. */
  function FourDigits(y: nat): (t: string)
    requires y <= 9999
  {
    [DigitChar(y / 10 / 10 / 10), DigitChar(y / 10 / 10 % 10), DigitChar(y / 10 % 10), DigitChar(y % 10)]
  }

  function Format(d: Date, monthPad: Pad, dayPad: Pad): string
    requires IsCalendarDate(d)
  {
    FourDigits(d.year) + "-" + TwoDigits(d.month, monthPad) + "-" + TwoDigits(d.day, dayPad)
  }

  /** Every way of writing `d` that `%Y-%m-%d` accepts. */
  function Spellings(d: Date): set<string>
    requires IsCalendarDate(d)
  {
    { Format(d, Unpadded, Unpadded), Format(d, Unpadded, ZeroPadded), Format(d, Unpadded, SpacePadded),
      Format(d, ZeroPadded, Unpadded), Format(d, ZeroPadded, ZeroPadded), Format(d, ZeroPadded, SpacePadded) }
  }

  lemma DigitsValueSnoc(s: string, c: char)
    requires AllDigits(s) && IsDigit(c)
    ensures AllDigits(s + [c]) && DigitsValue(s + [c]) == DigitsValue(s) * 10 + DigitValue(c)
  {
    assert (s + [c])[..|s|] == s;
  }

  /** The value of a digit run of length up to four, as a polynomial in its digits. */
  lemma DigitsValueShort(s: string)
    requires AllDigits(s) && 1 <= |s| <= 4
    ensures |s| == 1 ==> DigitsValue(s) == DigitValue(s[0])
    ensures |s| == 2 ==> DigitsValue(s) == DigitValue(s[0]) * 10 + DigitValue(s[1])
    ensures |s| == 4 ==> DigitsValue(s) == ((DigitValue(s[0]) * 10 + DigitValue(s[1])) * 10 + DigitValue(s[2])) * 10 + DigitValue(s[3])
  {
    DigitsValueSnoc([], s[0]);
    assert [] + [s[0]] == s[..1];
    if |s| >= 2 {
      DigitsValueSnoc(s[..1], s[1]);
      assert s[..1] + [s[1]] == s[..2];
    }
    if |s| >= 3 {
      DigitsValueSnoc(s[..2], s[2]);
      assert s[..2] + [s[2]] == s[..3];
    }
    if |s| == 4 {
      DigitsValueSnoc(s[..3], s[3]);
      assert s[..3] + [s[3]] == s;
    }
    if |s| == 2 {
      assert s[..2] == s;
    }
    if |s| == 1 {
      assert s[..1] == s;
    }
  }

  lemma FourDigitsValue(y: nat)
    requires y <= 9999
    ensures AllDigits(FourDigits(y)) && DigitsValue(FourDigits(y)) == y
  {
    DigitsValueShort(FourDigits(y));
  }

  lemma DigitsFour(s: string)
    requires |s| == 4 && AllDigits(s)
    ensures DigitsValue(s) <= 9999 && FourDigits(DigitsValue(s)) == s
  {
    DigitsValueShort(s);
    var a, b, c, d := DigitValue(s[0]), DigitValue(s[1]), DigitValue(s[2]), DigitValue(s[3]);
    var v := DigitsValue(s);
    assert v % 10 == d && v / 10 == (a * 10 + b) * 10 + c;
    assert v / 10 % 10 == c && v / 10 / 10 == a * 10 + b;
    assert v / 10 / 10 % 10 == b && v / 10 / 10 / 10 == a;
  }

  lemma TwoDigitsToken(n: nat, pad: Pad)
    requires 1 <= n <= 31
    ensures IsDayToken(TwoDigits(n, pad)) && DayValue(TwoDigits(n, pad)) == n
    ensures pad != SpacePadded && n <= 12 ==> IsMonthToken(TwoDigits(n, pad))
    ensures IsMonthToken(TwoDigits(n, pad)) ==> AllDigits(TwoDigits(n, pad)) && DigitsValue(TwoDigits(n, pad)) == n
  {
    var t := TwoDigits(n, pad);
    if t[0] != ' ' {
      DigitsValueShort(t);
    }
  }

  lemma MonthTokenSpelled(t: string)
    requires IsMonthToken(t)
    ensures AllDigits(t) && 1 <= DigitsValue(t) <= 12
    ensures TwoDigits(DigitsValue(t), if |t| == 1 then Unpadded else ZeroPadded) == t
  {
    DigitsValueShort(t);
  }

  lemma DayTokenSpelled(t: string)
    requires IsDayToken(t)
    ensures 1 <= DayValue(t) <= 31
    ensures TwoDigits(DayValue(t), if |t| == 1 then Unpadded else if t[0] == ' ' then SpacePadded else ZeroPadded) == t
  {
    if t[0] != ' ' {
      DigitsValueShort(t);
    }
  }

  /** Every spelling of a calendar date parses back to that date. */
  lemma ParseFormat(d: Date, monthPad: Pad, dayPad: Pad)
    requires IsCalendarDate(d) && monthPad != SpacePadded
    ensures ParseDate(Format(d, monthPad, dayPad)) == Some(d)
  {
    var y, m, dd := FourDigits(d.year), TwoDigits(d.month, monthPad), TwoDigits(d.day, dayPad);
    var s := Format(d, monthPad, dayPad);
    FourDigitsValue(d.year);
    TwoDigitsToken(d.month, monthPad);
    TwoDigitsToken(d.day, dayPad);
    var k := 5 + |m|;
    assert s[..4] == y;
    assert s[4] == '-' && s[k] == '-';
    assert s[5..k] == m;
    assert s[k + 1..] == dd;
  }

  /** What `strptime(s, "%Y-%m-%d")` accepts is exactly the spellings of calendar dates. */
  lemma ParseDateExactly(s: string, d: Date)
    ensures ParseDate(s) == Some(d) <==> IsCalendarDate(d) && s in Spellings(d)
  {
    if ParseDate(s) == Some(d) {
      var k := if s[6] == '-' then 6 else 7;
      DigitsFour(s[..4]);
      MonthTokenSpelled(s[5..k]);
      DayTokenSpelled(s[k + 1..]);
      var mp := if k == 6 then Unpadded else ZeroPadded;
      var dp := if |s[k + 1..]| == 1 then Unpadded else if s[k + 1] == ' ' then SpacePadded else ZeroPadded;
      assert s == s[..4] + "-" + s[5..k] + "-" + s[k + 1..];
      assert s == Format(d, mp, dp);
    }
    if IsCalendarDate(d) && s in Spellings(d) {
      ParseFormat(d, Unpadded, Unpadded);
      ParseFormat(d, Unpadded, ZeroPadded);
      ParseFormat(d, Unpadded, SpacePadded);
      ParseFormat(d, ZeroPadded, Unpadded);
      ParseFormat(d, ZeroPadded, ZeroPadded);
      ParseFormat(d, ZeroPadded, SpacePadded);
    }
  }

  /** If the text of February 29th of year `y` is accepted at all, it is read as that date. */
  lemma LeapDayText(y: int)
    requires 1 <= y <= 9999
    ensures var r := ParseDate(FourDigits(y) + "-02-29"); r.Some? ==> r.value == Date(y, 2, 29)
  {
    var s := FourDigits(y) + "-02-29";
    FourDigitsValue(y);
    assert s[..4] == FourDigits(y);
    assert s[5..7] == "02" && s[8..] == "29";
    DigitsValueShort(s[5..7]);
    DigitsValueShort(s[8..]);
  }

  /** February 29th of a year passes the date check exactly when the year is a Gregorian leap year. */
  lemma LeapDay(y: int)
    requires 1 <= y <= 9999
    ensures ParseDate(FourDigits(y) + "-02-29").Some? <==> IsLeapYear(y)
  {
    var s := FourDigits(y) + "-02-29";
    if IsLeapYear(y) {
      assert Format(Date(y, 2, 29), ZeroPadded, ZeroPadded) == s;
      ParseFormat(Date(y, 2, 29), ZeroPadded, ZeroPadded);
    } else {
      LeapDayText(y);
    }
  }
}
