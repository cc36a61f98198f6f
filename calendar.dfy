/** The proleptic Gregorian calendar over day ordinals, as Python's `datetime.date`
    counts them: day 1 is 0001-01-01, and every day after it is one more.
    The conversions are total over `int` (years before 1 continue the same
    400-year cycle); Python itself stops at years 1 and 9999. */
module Calendar {

  /** A calendar date, as its day ordinal (`date.toordinal()`). */
  type Date = int

  /** A date spelled out as year, month (1..12) and day of the month. */
  datatype Ymd = Ymd(year: int, month: int, day: int)

  predicate IsLeapYear(y: int) {
    y % 4 == 0 && (y % 100 != 0 || y % 400 == 0)
  }

  function DaysInYear(y: int): int {
    if IsLeapYear(y) then 366 else 365
  }

  function DaysInMonth(y: int, m: int): int
    requires 1 <= m <= 12
  {
    if m == 2 then (if IsLeapYear(y) then 29 else 28)
    else if m == 4 || m == 6 || m == 9 || m == 11 then 30
    else 31
  }

  /** Days of year `y` that come before the first of month `m`; month 13 stands
      for the end of the year. */
  function DaysBeforeMonth(y: int, m: int): int
    requires 1 <= m <= 13
  {
    var common :=
      if m == 1 then 0 else if m == 2 then 31 else if m == 3 then 59
      else if m == 4 then 90 else if m == 5 then 120 else if m == 6 then 151
      else if m == 7 then 181 else if m == 8 then 212 else if m == 9 then 243
      else if m == 10 then 273 else if m == 11 then 304 else if m == 12 then 334
      else 365;
    if m > 2 && IsLeapYear(y) then common + 1 else common
  }

  /** Days before January 1st of year `y`, counted from 0001-01-01. */
  function DaysBeforeYear(y: int): int {
    var p := y - 1;
    365 * p + p / 4 - p / 100 + p / 400
  }

  predicate ValidYmd(d: Ymd) {
    1 <= d.month <= 12 && 1 <= d.day <= DaysInMonth(d.year, d.month)
  }

  /** `date(y, m, d).toordinal()`. */
  function ToOrdinal(d: Ymd): Date
    requires ValidYmd(d)
  {
    DaysBeforeYear(d.year) + DaysBeforeMonth(d.year, d.month) + d.day
  }

  lemma DaysBeforeNextMonth(y: int, m: int)
    requires 1 <= m <= 12
    ensures DaysBeforeMonth(y, m + 1) == DaysBeforeMonth(y, m) + DaysInMonth(y, m)
  {
  }

  lemma DaysBeforeMonthIncreasing(y: int, m1: int, m2: int)
    requires 1 <= m1 < m2 <= 13
    ensures DaysBeforeMonth(y, m1) < DaysBeforeMonth(y, m2)
  {
  }

  /** Floor division by a positive constant is determined by quotient and remainder. */
  lemma DivMod(x: int, k: int, q: int, r: int)
    requires 0 < k && x == k * q + r && 0 <= r < k
    ensures x / k == q && x % k == r
  {
    var q' := x / k;
    if q' > q {
      MulAtLeast(k, q' - q);
    } else if q > q' {
      MulAtLeast(k, q - q');
    }
  }

  lemma {:induction false} MulAtLeast(k: int, t: int)
    requires 0 < k && 1 <= t
    ensures k * t >= k
    decreases t
  {
    if t > 1 {
      MulAtLeast(k, t - 1);
      assert k * t == k * (t - 1) + k;
    }
  }

  /** The number of days before year 400a + 100b + 4c + e + 1 splits into whole
      400-year, 100-year, 4-year and 1-year periods. */
  lemma {:induction false} DaysBeforeYearDecomposed(a: int, b: int, c: int, e: int)
    requires 0 <= b <= 3 && 0 <= c <= 24 && 0 <= e <= 3
    ensures DaysBeforeYear(400 * a + 100 * b + 4 * c + e + 1)
            == 146097 * a + 36524 * b + 1461 * c + 365 * e
  {
    var p := 400 * a + 100 * b + 4 * c + e;
    DivMod(p, 4, 100 * a + 25 * b + c, e);
    DivMod(p, 100, 4 * a + b, 4 * c + e);
    DivMod(p, 400, a, 100 * b + 4 * c + e);
  }

  /** Whether year `y` is a multiple of `k` decides whether `y / k` steps up. */
  lemma DivStep(y: int, k: int)
    requires 0 < k
    ensures y / k - (y - 1) / k == if y % k == 0 then 1 else 0
  {
    var q, r := (y - 1) / k, (y - 1) % k;
    if r + 1 == k {
      DivMod(y, k, q + 1, 0);
    } else {
      DivMod(y, k, q, r + 1);
    }
  }

  lemma DaysBeforeNextYear(y: int)
    ensures DaysBeforeYear(y + 1) == DaysBeforeYear(y) + DaysInYear(y)
  {
    DivStep(y, 4);
    DivStep(y, 100);
    DivStep(y, 400);
    if y % 100 == 0 {
      DivMod(y, 4, 25 * (y / 100), 0);
    }
    if y % 400 == 0 {
      DivMod(y, 100, 4 * (y / 400), 0);
    }
  }

  lemma {:induction false} DaysBeforeYearIncreasing(y1: int, y2: int)
    requires y1 < y2
    ensures DaysBeforeYear(y1 + 1) <= DaysBeforeYear(y2)
    decreases y2 - y1
  {
    if y1 + 1 < y2 {
      DaysBeforeYearIncreasing(y1 + 1, y2);
      DaysBeforeNextYear(y1 + 1);
    }
  }

  /** Year and day of the year (1-based) of ordinal `n`: the 400/100/4/1-year
      decomposition that CPython's `_ord2ymd` uses. */
  function YearAndDayOfYear(n: Date): (yd: (int, int))
    ensures 1 <= yd.1 <= DaysInYear(yd.0)
    ensures DaysBeforeYear(yd.0) + yd.1 == n
  {
    var n0 := n - 1;
    var n400, r400 := n0 / 146097, n0 % 146097;
    var n100, r100 := r400 / 36524, r400 % 36524;
    var n4, r4 := r100 / 1461, r100 % 1461;
    var n1, r1 := r4 / 365, r4 % 365;
    CycleDecomposition(n, n400, n100, n4, n1, r1);
    if n100 == 4 || n1 == 4 then
      // December 31st of the leap year that closes a 400-year or a 4-year cycle.
      (400 * n400 + 100 * n100 + 4 * n4 + n1, 366)
    else
      (400 * n400 + 100 * n100 + 4 * n4 + n1 + 1, r1 + 1)
  }

  lemma {:induction false} CycleDecomposition(n: int, n400: int, n100: int, n4: int, n1: int, r1: int)
    requires 0 <= r1 < 365 && 0 <= n1 <= 4 && 0 <= n4 && 0 <= n100 <= 4
    requires 365 * n1 + r1 < 1461 && 1461 * n4 + 365 * n1 + r1 < 36524
    requires 36524 * n100 + 1461 * n4 + 365 * n1 + r1 < 146097
    requires n - 1 == 146097 * n400 + 36524 * n100 + 1461 * n4 + 365 * n1 + r1
    ensures n100 == 4 || n1 == 4 ==>
              var y := 400 * n400 + 100 * n100 + 4 * n4 + n1;
              DaysInYear(y) == 366 && DaysBeforeYear(y) + 366 == n
    ensures n100 != 4 && n1 != 4 ==>
              var y := 400 * n400 + 100 * n100 + 4 * n4 + n1 + 1;
              r1 + 1 <= DaysInYear(y) && DaysBeforeYear(y) + r1 + 1 == n
  {
    if n100 == 4 {
      LastDayOfLeapYear(n400 + 1, 0, 0);
      DaysBeforeYearDecomposed(n400 + 1, 0, 0, 0);
    } else if n1 == 4 {
      LastDayOfLeapYear(n400, n100, n4 + 1);
      DaysBeforeYearDecomposed(n400, n100, n4 + 1, 0);
    } else {
      DaysBeforeYearDecomposed(n400, n100, n4, n1);
    }
  }

  /** Year 400a + 100b + 4c is a leap year (b = c = 0, or c between 1 and 24), and the
      day before its successor's first day is its 366th. */
  lemma {:induction false} LastDayOfLeapYear(a: int, b: int, c: int)
    requires (b == 0 && c == 0) || (0 <= b <= 3 && 1 <= c <= 24)
    ensures var y := 400 * a + 100 * b + 4 * c;
            DaysInYear(y) == 366 && DaysBeforeYear(y) + 366 == DaysBeforeYear(y + 1)
  {
    var y := 400 * a + 100 * b + 4 * c;
    DivMod(y, 4, 100 * a + 25 * b + c, 0);
    if c == 0 {
      DivMod(y, 400, a, 0);
    } else {
      DivMod(y, 100, 4 * a + b, 4 * c);
    }
    DaysBeforeNextYear(y);
  }

  /** The month, searched upwards from `m`, in which day `dayOfYear` of year `y` falls. */
  function MonthOfDayOfYear(y: int, dayOfYear: int, m: int): (month: int)
    requires 1 <= m <= 12
    requires DaysBeforeMonth(y, m) < dayOfYear <= DaysInYear(y)
    ensures m <= month <= 12
    ensures DaysBeforeMonth(y, month) < dayOfYear <= DaysBeforeMonth(y, month + 1)
    decreases 12 - m
  {
    if m == 12 || dayOfYear <= DaysBeforeMonth(y, m + 1) then m
    else MonthOfDayOfYear(y, dayOfYear, m + 1)
  }

  /** `date.fromordinal(n)`: a valid date whose ordinal is `n`. */
  function FromOrdinal(n: Date): (d: Ymd)
    ensures ValidYmd(d) && ToOrdinal(d) == n
  {
    var (y, dayOfYear) := YearAndDayOfYear(n);
    var m := MonthOfDayOfYear(y, dayOfYear, 1);
    DaysBeforeNextMonth(y, m);
    Ymd(y, m, dayOfYear - DaysBeforeMonth(y, m))
  }

  /** A valid date's ordinal lies inside its own year. */
  lemma OrdinalWithinYear(d: Ymd)
    requires ValidYmd(d)
    ensures DaysBeforeYear(d.year) < ToOrdinal(d) <= DaysBeforeYear(d.year + 1)
  {
    DaysBeforeNextMonth(d.year, d.month);
    if d.month < 12 {
      DaysBeforeMonthIncreasing(d.year, d.month + 1, 13);
    }
    DaysBeforeNextYear(d.year);
  }

  /** Distinct valid dates have distinct ordinals. */
  lemma {:induction false} ToOrdinalInjective(d1: Ymd, d2: Ymd)
    requires ValidYmd(d1) && ValidYmd(d2) && ToOrdinal(d1) == ToOrdinal(d2)
    ensures d1 == d2
  {
    OrdinalWithinYear(d1);
    OrdinalWithinYear(d2);
    if d1.year < d2.year {
      DaysBeforeYearIncreasing(d1.year, d2.year);
    } else if d2.year < d1.year {
      DaysBeforeYearIncreasing(d2.year, d1.year);
    }
    var y := d1.year;
    DaysBeforeNextMonth(y, d1.month);
    DaysBeforeNextMonth(y, d2.month);
    if d1.month < d2.month {
      DaysBeforeMonthIncreasing(y, d1.month + 1, d2.month + 1);
      if d1.month + 1 < d2.month {
        DaysBeforeMonthIncreasing(y, d1.month + 1, d2.month);
      }
    } else if d2.month < d1.month {
      DaysBeforeMonthIncreasing(y, d2.month + 1, d1.month + 1);
      if d2.month + 1 < d1.month {
        DaysBeforeMonthIncreasing(y, d2.month + 1, d1.month);
      }
    }
  }

  /** Converting a valid date to its ordinal and back gives the same date. */
  lemma {:induction false} FromToOrdinal(d: Ymd)
    requires ValidYmd(d)
    ensures FromOrdinal(ToOrdinal(d)) == d
  {
    ToOrdinalInjective(FromOrdinal(ToOrdinal(d)), d);
  }

  function Year(n: Date): int { FromOrdinal(n).year }

  function Month(n: Date): int { FromOrdinal(n).month }

  function Day(n: Date): int { FromOrdinal(n).day }

  /** `date.weekday()`: Monday is 0 and Sunday is 6. */
  function Weekday(n: Date): (w: int)
    ensures 0 <= w < 7
  {
    (n + 6) % 7
  }

  predicate IsWeekend(n: Date) {
    Weekday(n) >= 5
  }
}
