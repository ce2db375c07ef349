/** What `new Date(s)` yields for the date-only strings the event records
    carry ("YYYY-MM-DD"): the instant of UTC midnight of that day in the
    proleptic Gregorian calendar, in milliseconds since 1970-01-01, or
    `None` where JavaScript would produce an Invalid Date (NaN). */
module IsoDate {
  import opened Wrappers
  import opened Arith
  import opened Sorting

  const MsPerDay: int := 86400000

  function DigitValue(c: char): Option<int> {
    if '0' <= c <= '9' then Some(c as int - '0' as int) else None
  }

  function Pow10(k: nat): (p: int)
    ensures p >= 1
  {
    if k == 0 then 1 else 10 * Pow10(k - 1)
  }

  /** The decimal value of a run of digits, most significant first, or
      `None` if a character is not a digit. */
  function DigitsValue(s: string): (r: Option<int>)
    ensures r.Some? ==> 0 <= r.value < Pow10(|s|)
  {
    if s == [] then Some(0)
    else match (DigitValue(s[0]), DigitsValue(s[1..]))
      case (Some(high), Some(low)) =>
        DigitFits(high, low, Pow10(|s| - 1));
        Some(high * Pow10(|s| - 1) + low)
      case _ => None
  }

  /** A digit in front of a value below `p` gives a value below `10 * p`. */
  lemma DigitFits(high: int, low: int, p: int)
    requires 0 <= high <= 9 && 0 <= low < p
    ensures 0 <= high * p + low < 10 * p
  {
    MulMonotone(high + 1, 10, p);
    MulMonotone(0, high, p);
  }

  predicate IsLeapYear(y: int) {
    y % 4 == 0 && (y % 100 != 0 || y % 400 == 0)
  }

  function DaysInMonth(y: int, m: int): int
    requires 1 <= m <= 12
  {
    if m == 2 then (if IsLeapYear(y) then 29 else 28)
    else if m == 4 || m == 6 || m == 9 || m == 11 then 30
    else 31
  }

  function DaysInYear(y: int): int {
    if IsLeapYear(y) then 366 else 365
  }

  /** Days from the first of January to the first of month `m`. */
  function DaysBeforeMonth(y: int, m: int): int
    requires 1 <= m <= 12
  {
    [0, 31, 59, 90, 120, 151, 181, 212, 243, 273, 304, 334][m - 1]
      + (if m > 2 && IsLeapYear(y) then 1 else 0)
  }

  /** Leap years in 1..x, counted (for x < 1, negatively) by the Gregorian
      rule; Dafny's `/` floors for a positive divisor. */
  function LeapsThrough(x: int): int {
    x / 4 - x / 100 + x / 400
  }

  /** Days from 1970-01-01 to the first of January of year `y`. */
  function DaysBeforeYear(y: int): int {
    365 * (y - 1970) + LeapsThrough(y - 1) - LeapsThrough(1969)
  }

  /** Days since 1970-01-01 of the calendar date (y, m, d). */
  function DaysFromCivil(y: int, m: int, d: int): int
    requires 1 <= m <= 12
  {
    DaysBeforeYear(y) + DaysBeforeMonth(y, m) + d - 1
  }

  predicate ValidDate(y: int, m: int, d: int) {
    0 <= y <= 9999 && 1 <= m <= 12 && 1 <= d <= DaysInMonth(y, m)
  }

  /** A multiple of a day's length is a whole number of days. */
  lemma WholeDays(days: int)
    ensures (days * MsPerDay) % MsPerDay == 0
  {
    DivModUnique(days * MsPerDay, MsPerDay, days, 0);
  }

  /** The instant of UTC midnight of (y, m, d), if that is a calendar
      date. */
  function CivilInstant(y: int, m: int, d: int): (r: Option<int>)
    ensures r.Some? <==> 1 <= m <= 12 && 1 <= d <= DaysInMonth(y, m)
    ensures r.Some? ==> r.value % MsPerDay == 0
  {
    if 1 <= m <= 12 && 1 <= d <= DaysInMonth(y, m) then
      WholeDays(DaysFromCivil(y, m, d));
      Some(DaysFromCivil(y, m, d) * MsPerDay)
    else None
  }

  predicate DateShaped(s: string) {
    |s| == 10 && s[4] == '-' && s[7] == '-'
  }

  /** The instant of a "YYYY-MM-DD" string, at UTC midnight; any other
      shape, or a month or day out of range, is an invalid date. */
  function DateInstant(s: string): (r: Option<int>)
    ensures r.Some? ==> DateShaped(s)
    ensures r.Some? ==> DigitsValue(s[..4]).Some? && DigitsValue(s[5..7]).Some? && DigitsValue(s[8..]).Some?
    ensures r.Some? ==> r.value % MsPerDay == 0
  {
    if DateShaped(s) then
      match (DigitsValue(s[..4]), DigitsValue(s[5..7]), DigitsValue(s[8..]))
      case (Some(y), Some(m), Some(d)) => CivilInstant(y, m, d)
      case _ => None
    else None
  }

  /** The year, month and day a valid date string names. */
  function Ymd(s: string): (int, int, int)
    requires DateInstant(s).Some?
  {
    (DigitsValue(s[..4]).value, DigitsValue(s[5..7]).value, DigitsValue(s[8..]).value)
  }

  lemma YmdValid(s: string)
    requires DateInstant(s).Some?
    ensures ValidDate(Ymd(s).0, Ymd(s).1, Ymd(s).2)
    ensures DateInstant(s) == Some(DaysFromCivil(Ymd(s).0, Ymd(s).1, Ymd(s).2) * MsPerDay)
  {
  }

  // ---------------------------------------------------------------------
  // The day count agrees with the calendar
  // ---------------------------------------------------------------------

  /** Consecutive new-year days are a year's length apart. */
  lemma YearStep(y: int)
    ensures DaysBeforeYear(y + 1) == DaysBeforeYear(y) + DaysInYear(y)
  {
    DivStep(y, 4);
    DivStep(y, 100);
    DivStep(y, 400);
    if y % 400 == 0 {
      assert y % 100 == 0 && y % 4 == 0 by {
        DivModUnique(y, 100, 4 * (y / 400), 0);
        DivModUnique(y, 4, 100 * (y / 400), 0);
      }
    } else if y % 100 == 0 {
      assert y % 4 == 0 by {
        DivModUnique(y, 4, 25 * (y / 100), 0);
      }
    }
  }

  /** 1970-01-01 is day zero. */
  lemma EpochIsDayZero()
    ensures DaysFromCivil(1970, 1, 1) == 0
  {
  }

  /** The last day of a month comes before the first of any later month. */
  lemma MonthsMonotone(y: int, m1: int, m2: int)
    requires 1 <= m1 < m2 <= 12
    ensures DaysBeforeMonth(y, m1) + DaysInMonth(y, m1) <= DaysBeforeMonth(y, m2)
  {
  }

  /** The months of a year fit in that year. */
  lemma MonthsFitYear(y: int, m: int)
    requires 1 <= m <= 12
    ensures DaysBeforeMonth(y, m) + DaysInMonth(y, m) <= DaysInYear(y)
  {
  }

  /** The last day of a year comes before the first of any later year. */
  lemma {:induction false} YearsMonotone(y1: int, y2: int)
    requires y1 < y2
    ensures DaysBeforeYear(y1) + DaysInYear(y1) <= DaysBeforeYear(y2)
    decreases y2 - y1
  {
    YearStep(y1);
    if y1 + 1 < y2 {
      YearsMonotone(y1 + 1, y2);
    }
  }

  /** Calendar order on (year, month, day). */
  predicate CalendarBefore(y1: int, m1: int, d1: int, y2: int, m2: int, d2: int) {
    y1 < y2 || (y1 == y2 && (m1 < m2 || (m1 == m2 && d1 < d2)))
  }

  /** A later calendar date has a larger day count. */
  lemma CivilMonotone(y1: int, m1: int, d1: int, y2: int, m2: int, d2: int)
    requires ValidDate(y1, m1, d1) && ValidDate(y2, m2, d2)
    requires CalendarBefore(y1, m1, d1, y2, m2, d2)
    ensures DaysFromCivil(y1, m1, d1) < DaysFromCivil(y2, m2, d2)
  {
    if y1 < y2 {
      MonthsFitYear(y1, m1);
      YearsMonotone(y1, y2);
    } else if m1 < m2 {
      MonthsMonotone(y1, m1, m2);
    }
  }

  /** The leading digit's place value plus the rest. */
  lemma DigitsHead(s: string)
    requires s != [] && DigitsValue(s).Some?
    ensures DigitValue(s[0]).Some? && DigitsValue(s[1..]).Some?
    ensures DigitsValue(s).value
         == (s[0] as int - '0' as int) * Pow10(|s| - 1) + DigitsValue(s[1..]).value
    ensures 0 <= s[0] as int - '0' as int <= 9
  {
  }

  /** A smaller leading digit decides the comparison of equal-length digit
      strings, whatever follows. */
  lemma LeadingDigitDecides(ha: int, la: int, hb: int, lb: int, p: int)
    requires 0 <= la < p && 0 <= lb < p && ha < hb
    ensures ha * p + la < hb * p + lb
  {
    MulMonotone(ha + 1, hb, p);
  }

  /** Positional values compare by leading digit, then by what follows. */
  lemma PositionalOrder(ha: int, la: int, hb: int, lb: int, p: int)
    requires 0 <= la < p && 0 <= lb < p
    ensures ha * p + la < hb * p + lb <==> ha < hb || (ha == hb && la < lb)
    ensures ha * p + la == hb * p + lb <==> ha == hb && la == lb
  {
    if ha < hb {
      LeadingDigitDecides(ha, la, hb, lb, p);
    } else if hb < ha {
      LeadingDigitDecides(hb, lb, ha, la, p);
    }
  }

  /** For digit strings of one length, string order is numeric order, and
      equal values mean equal strings. */
  lemma {:induction false} DigitsOrder(a: string, b: string)
    requires |a| == |b| && DigitsValue(a).Some? && DigitsValue(b).Some?
    ensures LexLess(a, b) <==> DigitsValue(a).value < DigitsValue(b).value
    ensures a == b <==> DigitsValue(a).value == DigitsValue(b).value
  {
    if a != [] {
      DigitsHead(a);
      DigitsHead(b);
      DigitsOrder(a[1..], b[1..]);
      PositionalOrder(a[0] as int - '0' as int, DigitsValue(a[1..]).value,
                      b[0] as int - '0' as int, DigitsValue(b[1..]).value, Pow10(|a| - 1));
      assert a == [a[0]] + a[1..] && b == [b[0]] + b[1..];
    }
  }

  /** Strings that agree at a separator compare as their parts before it,
      then their parts after it. */
  lemma LexAroundSeparator(a1: string, a2: string, b1: string, b2: string, c: char)
    requires |a1| == |b1|
    ensures LexLess(a1 + [c] + a2, b1 + [c] + b2) <==> LexLess(a1, b1) || (a1 == b1 && LexLess(a2, b2))
  {
    assert a1 + [c] + a2 == a1 + ([c] + a2) && b1 + [c] + b2 == b1 + ([c] + b2);
    LexAppend(a1, [c] + a2, b1, [c] + b2);
    assert ([c] + a2)[1..] == a2 && ([c] + b2)[1..] == b2;
  }

  /** A date-shaped string is its three fields around two dashes. */
  lemma DateFields(a: string)
    requires DateShaped(a)
    ensures a == a[..4] + ['-'] + (a[5..7] + ['-'] + a[8..])
  {
  }

  /** Two date-shaped strings compare field by field. */
  lemma LexByFields(a: string, b: string)
    requires DateShaped(a) && DateShaped(b)
    ensures LexLess(a, b) <==>
      LexLess(a[..4], b[..4]) || (a[..4] == b[..4] &&
        (LexLess(a[5..7], b[5..7]) || (a[5..7] == b[5..7] && LexLess(a[8..], b[8..]))))
    ensures a == b <==> a[..4] == b[..4] && a[5..7] == b[5..7] && a[8..] == b[8..]
  {
    DateFields(a);
    DateFields(b);
    LexAroundSeparator(a[..4], a[5..7] + ['-'] + a[8..], b[..4], b[5..7] + ['-'] + b[8..], '-');
    LexAroundSeparator(a[5..7], a[8..], b[5..7], b[8..], '-');
  }

  /** Two date strings compare as their (year, month, day) triples do. */
  lemma StringOrderIsCalendarOrder(a: string, b: string)
    requires DateInstant(a).Some? && DateInstant(b).Some?
    ensures LexLess(a, b) <==> CalendarBefore(Ymd(a).0, Ymd(a).1, Ymd(a).2, Ymd(b).0, Ymd(b).1, Ymd(b).2)
    ensures a == b <==> Ymd(a) == Ymd(b)
  {
    LexByFields(a, b);
    DigitsOrder(a[..4], b[..4]);
    DigitsOrder(a[5..7], b[5..7]);
    DigitsOrder(a[8..], b[8..]);
  }

  /** Two valid dates' instants compare as their (year, month, day)
      triples do. */
  lemma InstantOrderIsCalendarOrder(a: string, b: string)
    requires DateInstant(a).Some? && DateInstant(b).Some?
    ensures DateInstant(a).value < DateInstant(b).value
        <==> CalendarBefore(Ymd(a).0, Ymd(a).1, Ymd(a).2, Ymd(b).0, Ymd(b).1, Ymd(b).2)
    ensures DateInstant(a).value == DateInstant(b).value <==> Ymd(a) == Ymd(b)
  {
    var (ya, ma, da) := Ymd(a);
    var (yb, mb, db) := Ymd(b);
    YmdValid(a);
    YmdValid(b);
    var da', db' := DaysFromCivil(ya, ma, da), DaysFromCivil(yb, mb, db);
    if CalendarBefore(ya, ma, da, yb, mb, db) {
      CivilMonotone(ya, ma, da, yb, mb, db);
      MulMonotone(da' + 1, db', MsPerDay);
    } else if CalendarBefore(yb, mb, db, ya, ma, da) {
      CivilMonotone(yb, mb, db, ya, ma, da);
      MulMonotone(db' + 1, da', MsPerDay);
    }
  }

  /** For two well-formed date strings, string order is chronological order
      and distinct strings name distinct days; so sorting by the date string,
      as the backend does, sorts chronologically. */
  lemma DateOrderIsStringOrder(a: string, b: string)
    requires DateInstant(a).Some? && DateInstant(b).Some?
    ensures LexLess(a, b) <==> DateInstant(a).value < DateInstant(b).value
    ensures a == b <==> DateInstant(a).value == DateInstant(b).value
  {
    StringOrderIsCalendarOrder(a, b);
    InstantOrderIsCalendarOrder(a, b);
  }
}
