/**
 * What `new Date(text)` makes of the strings the day query builds: the ECMAScript
 * date-time string format ("YYYY", "YYYY-MM" or "YYYY-MM-DD", then "THH:mm:ss.sssZ"),
 * read in the proleptic Gregorian calendar and turned into milliseconds since
 * 1970-01-01T00:00:00.000Z by the MakeDay / MakeTime / MakeDate operations of ECMA-262.
 */
module Calendar {
  import opened Wrappers

  /** Milliseconds in one day (ECMA-262 msPerDay). */
  const MsPerDay := 86400000

  /** Days from 0000-01-01 to 1970-01-01. */
  const EpochDay := 719528

  /** Year, month (1..12) and day of month as the string format writes them. */
  datatype CivilDate = CivilDate(year: int, month: int, day: int)

  // ---------------------------------------------------------------- calendar

  predicate IsLeapYear(y: int)
  {
    y % 4 == 0 && (y % 100 != 0 || y % 400 == 0)
  }

  function DaysInYear(y: int): int
  {
    if IsLeapYear(y) then 366 else 365
  }

  function DaysInMonth(y: int, m: int): int
    requires 1 <= m <= 12
  {
    if m == 2 then (if IsLeapYear(y) then 29 else 28)
    else if m == 4 || m == 6 || m == 9 || m == 11 then 30
    else 31
  }

  /** Days of year `y` before the first of month `m` (m == 13: the whole year). */
  function DaysBeforeMonth(y: int, m: int): int
    requires 1 <= m <= 13
  {
    if m == 1 then 0 else DaysBeforeMonth(y, m - 1) + DaysInMonth(y, m - 1)
  }

  /** Days from 0000-01-01 to January 1 of year `y`; the leap years in [0, y) are counted in closed form. */
  function DaysBeforeYear(y: int): int
  {
    365 * y + (y + 3) / 4 - (y + 99) / 100 + (y + 399) / 400
  }

  /** The fields the string format accepts: a four-digit year, month 01..12, day 01..31. */
  predicate InFormatRange(c: CivilDate)
  {
    0 <= c.year <= 9999 && 1 <= c.month <= 12 && 1 <= c.day <= 31
  }

  /** A date that exists in the calendar and has a four-digit year. */
  predicate IsCalendarDate(c: CivilDate)
  {
    0 <= c.year <= 9999 && 1 <= c.month <= 12 && 1 <= c.day <= DaysInMonth(c.year, c.month)
  }

  /** ECMA-262 MakeDay: days since 1970-01-01. A day of month past the end of its month
      (2025-02-30) is counted on into the following month, as MakeDay does. */
  function MakeDay(c: CivilDate): int
    requires 1 <= c.month <= 12
  {
    DaysBeforeYear(c.year) - EpochDay + DaysBeforeMonth(c.year, c.month) + c.day - 1
  }

  /** The calendar date after `c`. */
  function NextDate(c: CivilDate): (n: CivilDate)
    requires IsCalendarDate(c)
    ensures 1 <= n.month <= 12
  {
    if c.day < DaysInMonth(c.year, c.month) then CivilDate(c.year, c.month, c.day + 1)
    else if c.month < 12 then CivilDate(c.year, c.month + 1, 1)
    else CivilDate(c.year + 1, 1, 1)
  }

  /** `a` comes before `b` in calendar order. */
  predicate Precedes(a: CivilDate, b: CivilDate)
  {
    a.year < b.year
    || (a.year == b.year && a.month < b.month)
    || (a.year == b.year && a.month == b.month && a.day < b.day)
  }

  lemma YearStep(y: int)
    ensures DaysBeforeYear(y + 1) == DaysBeforeYear(y) + DaysInYear(y)
  {
    assert (y + 4) / 4 - (y + 3) / 4 == if y % 4 == 0 then 1 else 0;
    assert (y + 100) / 100 - (y + 99) / 100 == if y % 100 == 0 then 1 else 0;
    assert (y + 400) / 400 - (y + 399) / 400 == if y % 400 == 0 then 1 else 0;
  }

  lemma {:induction false} YearsIncrease(a: int, b: int)
    requires a <= b
    ensures DaysBeforeYear(a) + 365 * (b - a) <= DaysBeforeYear(b)
    decreases b - a
  {
    if a < b {
      YearsIncrease(a, b - 1);
      YearStep(b - 1);
    }
  }

  lemma {:induction false} MonthsIncrease(y: int, m: int, k: int)
    requires 1 <= m <= k <= 13
    ensures DaysBeforeMonth(y, m) + 28 * (k - m) <= DaysBeforeMonth(y, k)
    decreases k - m
  {
    if m < k {
      MonthsIncrease(y, m, k - 1);
    }
  }

  /** The twelve months make up the year. */
  lemma MonthsFillYear(y: int)
    ensures DaysBeforeMonth(y, 13) == DaysInYear(y)
  {
    var feb := DaysInMonth(y, 2);
    assert DaysBeforeMonth(y, 2) == 31;
    assert DaysBeforeMonth(y, 3) == 31 + feb;
    assert DaysBeforeMonth(y, 4) == 62 + feb;
    assert DaysBeforeMonth(y, 5) == 92 + feb;
    assert DaysBeforeMonth(y, 6) == 123 + feb;
    assert DaysBeforeMonth(y, 7) == 153 + feb;
    assert DaysBeforeMonth(y, 8) == 184 + feb;
    assert DaysBeforeMonth(y, 9) == 215 + feb;
    assert DaysBeforeMonth(y, 10) == 245 + feb;
    assert DaysBeforeMonth(y, 11) == 276 + feb;
    assert DaysBeforeMonth(y, 12) == 306 + feb;
  }

  /** A calendar date is one of the days of its year. */
  lemma DayOfYearInRange(c: CivilDate)
    requires IsCalendarDate(c)
    ensures 0 <= DaysBeforeMonth(c.year, c.month) + c.day - 1 < DaysInYear(c.year)
  {
    MonthsIncrease(c.year, 1, c.month);
    MonthsIncrease(c.year, c.month + 1, 13);
    MonthsFillYear(c.year);
  }

  /** MakeDay counts the days of the calendar one by one. */
  lemma NextDateIsNextDay(c: CivilDate)
    requires IsCalendarDate(c)
    ensures MakeDay(NextDate(c)) == MakeDay(c) + 1
  {
    if c.day == DaysInMonth(c.year, c.month) && c.month == 12 {
      YearStep(c.year);
      MonthsFillYear(c.year);
    }
  }

  /** MakeDay is strictly increasing in calendar order, so distinct calendar dates are distinct days. */
  lemma MakeDayIncreasing(a: CivilDate, b: CivilDate)
    requires IsCalendarDate(a) && IsCalendarDate(b) && Precedes(a, b)
    ensures MakeDay(a) < MakeDay(b)
  {
    if a.year < b.year {
      DayOfYearInRange(a);
      YearStep(a.year);
      YearsIncrease(a.year + 1, b.year);
      MonthsIncrease(b.year, 1, b.month);
    } else if a.month < b.month {
      MonthsIncrease(a.year, a.month + 1, b.month);
    }
  }

  lemma MakeDayInjective(a: CivilDate, b: CivilDate)
    requires IsCalendarDate(a) && IsCalendarDate(b) && MakeDay(a) == MakeDay(b)
    ensures a == b
  {
    if Precedes(a, b) {
      MakeDayIncreasing(a, b);
    } else if Precedes(b, a) {
      MakeDayIncreasing(b, a);
    }
  }

  /** A day of month past the end of the month names the same day as its roll-over into the next month. */
  lemma MakeDayRollsOver(c: CivilDate)
    requires InFormatRange(c) && c.month < 12 && c.day > DaysInMonth(c.year, c.month)
    ensures MakeDay(c) == MakeDay(CivilDate(c.year, c.month + 1, c.day - DaysInMonth(c.year, c.month)))
  {
  }

  // ---------------------------------------------------------------- digits

  predicate IsDigit(ch: char)
  {
    '0' <= ch <= '9'
  }

  predicate AllDigits(s: string)
  {
    forall i :: 0 <= i < |s| ==> IsDigit(s[i])
  }

  function Pow10(k: nat): (p: nat)
    ensures p >= 1
  {
    if k == 0 then 1 else 10 * Pow10(k - 1)
  }

  /** The number a run of decimal digits denotes, leading zeros allowed. */
  function DecimalValue(s: string): (n: nat)
    requires AllDigits(s)
    ensures n < Pow10(|s|)
  {
    if s == [] then 0
    else DecimalValue(s[..|s| - 1]) * 10 + Digit(s[|s| - 1])
  }

  function Digit(ch: char): int
  {
    ch as int - '0' as int
  }

  /** `n` written with exactly `width` decimal digits, zero-padded on the left. */
  function Padded(n: nat, width: nat): (s: string)
    requires n < Pow10(width)
    ensures |s| == width && AllDigits(s) && DecimalValue(s) == n
  {
    if width == 0 then ""
    else
      var q, d := n / 10, n % 10;
      assert n == q * 10 + d && 0 <= d < 10;
      assert q < Pow10(width - 1);
      var init := Padded(q, width - 1);
      var s := init + [('0' as int + d) as char];
      assert s[..|s| - 1] == init;
      assert Digit(s[|s| - 1]) == d;
      s
  }

  /** A run of digits is the zero-padded form of its own value. */
  lemma {:induction false} PaddedOfDecimalValue(s: string)
    requires AllDigits(s)
    ensures Padded(DecimalValue(s), |s|) == s
  {
    if s != [] {
      var init, last := s[..|s| - 1], s[|s| - 1];
      PaddedOfDecimalValue(init);
      var q, d := DecimalValue(init), Digit(last);
      var v := DecimalValue(s);
      assert v == q * 10 + d;
      DivMod10(q, d);
      assert Padded(v, |s|) == Padded(q, |s| - 1) + [('0' as int + d) as char];
      assert ('0' as int + d) as char == last;
      assert s == init + [last];
    }
  }

  lemma DivMod10(q: int, d: int)
    requires 0 <= d < 10
    ensures (q * 10 + d) / 10 == q && (q * 10 + d) % 10 == d
  {
  }

  // ---------------------------------------------------------------- strings

  /** The date part of the format: "YYYY", "YYYY-MM" or "YYYY-MM-DD"; a missing month or day is 01. */
  function ParseDateForm(s: string): (r: Option<CivilDate>)
    ensures r.Some? ==> InFormatRange(r.value)
    ensures r.Some? ==> |s| == 4 || |s| == 7 || |s| == 10
  {
    if |s| == 4 && AllDigits(s) then
      Some(CivilDate(DecimalValue(s), 1, 1))
    else if |s| == 7 && AllDigits(s[..4]) && s[4] == '-' && AllDigits(s[5..])
         && 1 <= DecimalValue(s[5..]) <= 12 then
      Some(CivilDate(DecimalValue(s[..4]), DecimalValue(s[5..]), 1))
    else if |s| == 10 && AllDigits(s[..4]) && s[4] == '-' && AllDigits(s[5..7]) && s[7] == '-'
         && AllDigits(s[8..]) && 1 <= DecimalValue(s[5..7]) <= 12 && 1 <= DecimalValue(s[8..]) <= 31 then
      Some(CivilDate(DecimalValue(s[..4]), DecimalValue(s[5..7]), DecimalValue(s[8..])))
    else
      None
  }

  /** A date written "YYYY-MM-DD". */
  function FormatDate(c: CivilDate): (s: string)
    requires InFormatRange(c)
    ensures |s| == 10
  {
    Padded(c.year, 4) + "-" + Padded(c.month, 2) + "-" + Padded(c.day, 2)
  }

  /** Writing a date and reading it back gives the same fields. */
  lemma ParseFormattedDate(c: CivilDate)
    requires InFormatRange(c)
    ensures ParseDateForm(FormatDate(c)) == Some(c)
  {
    var s := FormatDate(c);
    assert s[..4] == Padded(c.year, 4);
    assert s[5..7] == Padded(c.month, 2);
    assert s[8..] == Padded(c.day, 2);
  }

  /** "YYYY" is read as 1 January of that year. */
  lemma ParseYearForm(y: nat)
    requires y <= 9999
    ensures ParseDateForm(Padded(y, 4)) == Some(CivilDate(y, 1, 1))
  {
  }

  /** "YYYY-MM" is read as the first of that month. */
  lemma ParseYearMonthForm(y: nat, m: nat)
    requires y <= 9999 && 1 <= m <= 12
    ensures ParseDateForm(Padded(y, 4) + "-" + Padded(m, 2)) == Some(CivilDate(y, m, 1))
  {
    var s := Padded(y, 4) + "-" + Padded(m, 2);
    assert s[..4] == Padded(y, 4) && s[4] == '-' && s[5..] == Padded(m, 2);
  }

  /** A "YYYY-MM-DD" string the parser accepts is exactly the formatting of what it read. */
  lemma FormatParsedDate(s: string)
    requires |s| == 10 && ParseDateForm(s).Some?
    ensures FormatDate(ParseDateForm(s).value) == s
  {
    var ys, ms, ds := s[..4], s[5..7], s[8..];
    assert AllDigits(ys) && AllDigits(ms) && AllDigits(ds);
    var c := ParseDateForm(s).value;
    assert c == CivilDate(DecimalValue(ys), DecimalValue(ms), DecimalValue(ds));
    PaddedOfDecimalValue(ys);
    PaddedOfDecimalValue(ms);
    PaddedOfDecimalValue(ds);
    assert FormatDate(c) == ys + "-" + ms + "-" + ds;
    assert s == ys + "-" + ms + "-" + ds;
  }

  /** The time part "THH:mm:ss.sssZ" as milliseconds into the day; "T24:00:00.000Z" is the end of the day. */
  function ParseTimeOfDay(t: string): (r: Option<int>)
    ensures r.Some? ==> 0 <= r.value <= MsPerDay
  {
    if |t| == 14 && t[0] == 'T' && AllDigits(t[1..3]) && t[3] == ':' && AllDigits(t[4..6]) && t[6] == ':'
       && AllDigits(t[7..9]) && t[9] == '.' && AllDigits(t[10..13]) && t[13] == 'Z' then
      var h, m, s, ms := DecimalValue(t[1..3]), DecimalValue(t[4..6]), DecimalValue(t[7..9]), DecimalValue(t[10..13]);
      if (h <= 23 && m <= 59 && s <= 59) || (h == 24 && m == 0 && s == 0 && ms == 0) then
        Some(h * 3600000 + m * 60000 + s * 1000 + ms)
      else
        None
    else
      None
  }

  /** The time value of `new Date(text)` for a date form followed by a full UTC time;
      `None` is the Invalid Date (a NaN time value). */
  function TimeValue(text: string): (r: Option<int>)
    ensures r.Some? ==> |text| >= 14 && ParseDateForm(text[..|text| - 14]).Some?
    ensures r.Some? ==> var day := MakeDay(ParseDateForm(text[..|text| - 14]).value);
                        day * MsPerDay <= r.value <= day * MsPerDay + MsPerDay
  {
    if |text| < 14 then None
    else
      match ParseDateForm(text[..|text| - 14])
      case None => None
      case Some(c) =>
        match ParseTimeOfDay(text[|text| - 14..])
        case None => None
        case Some(ms) => Some(MakeDay(c) * MsPerDay + ms)
  }

  /** The Unix epoch is day 0. */
  lemma EpochIsDayZero()
    ensures MakeDay(CivilDate(1970, 1, 1)) == 0
  {
  }

  /** An instant lies in the milliseconds of day `n` exactly when the floor of its day count is `n`. */
  lemma InstantOfDay(n: int, t: int)
    ensures n * MsPerDay <= t <= n * MsPerDay + MsPerDay - 1 <==> t / MsPerDay == n
  {
    var q, r := t / MsPerDay, t % MsPerDay;
    assert t == q * MsPerDay + r && 0 <= r < MsPerDay;
    if q < n {
      assert q * MsPerDay + MsPerDay <= n * MsPerDay;
    } else if q > n {
      assert n * MsPerDay + MsPerDay <= q * MsPerDay;
    }
  }

}
