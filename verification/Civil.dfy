/**
 * Civil dates: nxe_cedar_days_in_month and nxe_cedar_days_from_civil, and the calendar they are
 * measured against.
 */
module Civil {
  import opened Common

  // ---- The calendar ----

  predicate IsLeap(y: int) {
    (y % 4 == 0 && y % 100 != 0) || y % 400 == 0
  }

  function DaysInMonth(y: int, m: int): (n: int)
    requires 1 <= m <= 12
    ensures 28 <= n <= 31
  {
    if m == 2 && IsLeap(y) then 29
    else [31, 28, 31, 30, 31, 30, 31, 31, 30, 31, 30, 31][m - 1]
  }

  predicate IsDate(y: int, m: int, d: int) {
    1 <= m <= 12 && 1 <= d <= DaysInMonth(y, m)
  }

  function NextDay(y: int, m: int, d: int): (next: (int, int, int))
    requires IsDate(y, m, d)
    ensures IsDate(next.0, next.1, next.2)
  {
    if d < DaysInMonth(y, m) then (y, m, d + 1)
    else if m < 12 then (y, m + 1, 1)
    else (y + 1, 1, 1)
  }

  predicate Earlier(y: int, m: int, d: int, y': int, m': int, d': int) {
    y < y' || (y == y' && (m < m' || (m == m' && d < d')))
  }

  function YearLength(y: int): int {
    if IsLeap(y) then 366 else 365
  }

  /** Days from 1970-01-01 to the first of January of y, year by year. */
  function DaysBeforeYear(y: int): int
    decreases if y >= 1970 then y - 1970 else 1970 - y
  {
    if y == 1970 then 0
    else if y > 1970 then DaysBeforeYear(y - 1) + YearLength(y - 1)
    else DaysBeforeYear(y + 1) - YearLength(y)
  }

  /** Days from the first of January to the first of month m, month by month. */
  function DaysBeforeMonth(y: int, m: int): int
    requires 1 <= m <= 12
  {
    if m == 1 then 0 else DaysBeforeMonth(y, m - 1) + DaysInMonth(y, m - 1)
  }

  /** The number of days from 1970-01-01 to a date, counted one by one. */
  function DayCount(y: int, m: int, d: int): int
    requires 1 <= m <= 12
  {
    DaysBeforeYear(y) + DaysBeforeMonth(y, m) + d - 1
  }

  // ---- The closed form ----

  /** The 400-year era of a year that starts in March, rounded down also for negative years. */
  function Era(y: int): (era: int)
    ensures era == y / 400
  {
    TruncDiv(if y >= 0 then y else y - 399, 400)
  }

  function DayOfYear(m: int, d: int): int {
    TruncDiv(153 * (m + (if m > 2 then -3 else 9)) + 2, 5) + d - 1
  }

  function DayOfEra(yoe: int, doy: int): int {
    yoe * 365 + TruncDiv(yoe, 4) - TruncDiv(yoe, 100) + doy
  }

  function DaysFromCivil(y: int, m: int, d: int): int {
    var y' := if m <= 2 then y - 1 else y;
    var era := Era(y');
    var yoe := y' - era * 400;
    era * 146097 + DayOfEra(yoe, DayOfYear(m, d)) - 719468
  }

  /** The ranges the source notes beside its formula. */
  lemma Ranges(y: int, m: int, d: int)
    requires IsDate(y, m, d)
    ensures var y' := if m <= 2 then y - 1 else y;
      var yoe := y' - Era(y') * 400;
      0 <= yoe <= 399 && 0 <= DayOfYear(m, d) <= 365 && 0 <= DayOfEra(yoe, DayOfYear(m, d)) <= 146096
  {
    var y' := if m <= 2 then y - 1 else y;
    var yoe := y' - Era(y') * 400;
    if m == 2 && d == 29 && yoe == 399 {
    } else if DayOfYear(m, d) == 365 {
      assert m == 2 && d == 29 && IsLeap(y);
    }
  }

  /** Days from the era origin to the first of March of y. */
  function MarchStart(y: int): int {
    var era := Era(y);
    era * 146097 + DayOfEra(y - era * 400, 0)
  }

  lemma Mod4(k: int, n: int)
    ensures (4 * k + n) % 4 == n % 4
  {
  }

  lemma Mod100(k: int, n: int)
    ensures (100 * k + n) % 100 == n % 100
  {
  }

  lemma Mod400(k: int, n: int)
    ensures (400 * k + n) % 400 == n % 400 && (0 <= n < 400 ==> (400 * k + n) / 400 == k)
  {
  }

  /** Splitting a year into era and year of era does not change what its leap rule sees. */
  lemma EraSplit(era: int, yoe: int)
    requires 0 <= yoe <= 400
    ensures var y := era * 400 + yoe;
      y % 4 == yoe % 4 && y % 100 == yoe % 100 && y % 400 == yoe % 400 && (yoe < 400 ==> y / 400 == era)
  {
    Mod4(era * 100, yoe);
    Mod100(era * 4, yoe);
    Mod400(era, yoe);
  }

  lemma LeapStep(yoe: int)
    requires 0 <= yoe < 399
    ensures (yoe + 1) / 4 - yoe / 4 - ((yoe + 1) / 100 - yoe / 100) == if IsLeap(yoe + 1) then 1 else 0
  {
    Step4(yoe);
    Step100(yoe);
    assert (yoe + 1) % 100 == 0 ==> (yoe + 1) % 4 == 0;
    assert (yoe + 1) % 400 == yoe + 1;
  }

  lemma Step4(n: int)
    ensures (n + 1) / 4 - n / 4 == if (n + 1) % 4 == 0 then 1 else 0
  {
  }

  lemma Step100(n: int)
    ensures (n + 1) / 100 - n / 100 == if (n + 1) % 100 == 0 then 1 else 0
  {
  }

  /** A year that starts in March is as long as the February it ends with demands. */
  lemma MarchYear(y: int)
    ensures MarchStart(y + 1) - MarchStart(y) == YearLength(y + 1)
  {
    hide MarchStart;
    var era, yoe := y / 400, y % 400;
    MarchAt(era, yoe);
    EraSplit(era, yoe + 1);
    if yoe == 399 {
      MarchAt(era + 1, 0);
    } else {
      MarchAt(era, yoe + 1);
      LeapStep(yoe);
    }
  }

  lemma MarchAt(era: int, yoe: int)
    requires 0 <= yoe < 400
    ensures MarchStart(era * 400 + yoe) == era * 146097 + yoe * 365 + yoe / 4 - yoe / 100
  {
    EraSplit(era, yoe);
  }

  lemma YearStep(y: int)
    ensures DaysFromCivil(y + 1, 1, 1) - DaysFromCivil(y, 1, 1) == YearLength(y)
  {
    MarchYear(y - 1);
    assert DaysFromCivil(y, 1, 1) == MarchStart(y - 1) + 306 - 719468;
    assert DaysFromCivil(y + 1, 1, 1) == MarchStart(y) + 306 - 719468;
  }

  /** The days from the first of March to the first of each month. */
  lemma MonthOffsets(m: int)
    requires 1 <= m <= 12
    ensures DayOfYear(m, 1) == [306, 337, 0, 31, 61, 92, 122, 153, 184, 214, 245, 275][m - 1]
  {
  }

  lemma MonthStep(y: int, m: int)
    requires 1 <= m < 12
    ensures DaysFromCivil(y, m + 1, 1) - DaysFromCivil(y, m, 1) == DaysInMonth(y, m)
  {
    hide DaysFromCivil, MarchStart, DayOfYear;
    MonthOffsets(m);
    MonthOffsets(m + 1);
    FromMarch(y, m);
    FromMarch(y, m + 1);
    if m == 2 {
      MarchYear(y - 1);
    }
  }

  lemma FromMarch(y: int, m: int)
    requires 1 <= m <= 12
    ensures DaysFromCivil(y, m, 1) == MarchStart(if m <= 2 then y - 1 else y) + DayOfYear(m, 1) - 719468
  {
  }

  lemma DayStep(y: int, m: int, d: int)
    requires 1 <= m <= 12
    ensures DaysFromCivil(y, m, d) == DaysFromCivil(y, m, 1) + d - 1
  {
  }

  /** 1970-01-01 is day 0, and every next calendar day is one more. */
  lemma CountsDays(y: int, m: int, d: int)
    requires IsDate(y, m, d)
    ensures DaysFromCivil(1970, 1, 1) == 0
    ensures var (y', m', d') := NextDay(y, m, d); DaysFromCivil(y', m', d') == DaysFromCivil(y, m, d) + 1
  {
    EpochDay();
    hide DaysFromCivil, DaysBeforeMonth, DaysBeforeYear, IsLeap, DayOfYear, DayOfEra, MarchStart, Era;
    DayStep(y, m, d);
    if d < DaysInMonth(y, m) {
      DayStep(y, m, d + 1);
    } else if m < 12 {
      MonthStep(y, m);
    } else {
      YearEnd(y, 12);
      YearStep(y);
      LastMonth(y);
    }
  }

  lemma EpochDay()
    ensures DaysFromCivil(1970, 1, 1) == 0
  {
  }

  lemma LastMonth(y: int)
    ensures DaysBeforeMonth(y, 12) + 31 == YearLength(y)
  {
    assert DaysBeforeMonth(y, 2) == 31;
    assert DaysBeforeMonth(y, 3) == YearLength(y) - 306;
    assert DaysBeforeMonth(y, 5) == DaysBeforeMonth(y, 3) + 61;
    assert DaysBeforeMonth(y, 7) == DaysBeforeMonth(y, 5) + 61;
    assert DaysBeforeMonth(y, 9) == DaysBeforeMonth(y, 7) + 62;
    assert DaysBeforeMonth(y, 11) == DaysBeforeMonth(y, 9) + 61;
  }

  lemma {:induction false} YearEnd(y: int, m: int)
    requires 1 <= m <= 12
    ensures DaysFromCivil(y, m, 1) == DaysFromCivil(y, 1, 1) + DaysBeforeMonth(y, m)
  {
    if m > 1 {
      YearEnd(y, m - 1);
      MonthStep(y, m - 1);
    }
  }

  lemma {:induction false} YearStart(y: int)
    ensures DaysFromCivil(y, 1, 1) == DaysBeforeYear(y)
    decreases if y >= 1970 then y - 1970 else 1970 - y
  {
    if y > 1970 {
      YearStart(y - 1);
      YearStep(y - 1);
    } else if y < 1970 {
      YearStart(y + 1);
      YearStep(y);
    }
  }

  /** The closed form is the day count, for every year. */
  lemma IsDayCount(y: int, m: int, d: int)
    requires IsDate(y, m, d)
    ensures DaysFromCivil(y, m, d) == DayCount(y, m, d)
  {
    DayStep(y, m, d);
    YearEnd(y, m);
    YearStart(y);
  }

  lemma {:induction false} YearsGrow(y: int, y': int)
    requires y <= y'
    ensures DaysBeforeYear(y') >= DaysBeforeYear(y) + 365 * (y' - y)
    decreases y' - y
  {
    if y < y' {
      YearsGrow(y, y' - 1);
    }
  }

  /** Month by month, the days before a month stay within the year. */
  lemma {:induction false} MonthsGrow(y: int, m: int, m': int)
    requires 1 <= m <= m' <= 12
    ensures m < m' ==> DaysBeforeMonth(y, m') >= DaysBeforeMonth(y, m) + DaysInMonth(y, m)
    ensures DaysBeforeMonth(y, m') >= DaysBeforeMonth(y, m)
    decreases m' - m
  {
    if m < m' {
      MonthsGrow(y, m, m' - 1);
    }
  }

  lemma WithinYear(y: int, m: int, d: int)
    requires IsDate(y, m, d)
    ensures DaysBeforeYear(y) <= DayCount(y, m, d) < DaysBeforeYear(y + 1)
  {
    assert DaysBeforeMonth(y, 1) == 0;
    hide DaysFromCivil, DaysBeforeMonth, DaysBeforeYear, IsLeap;
    MonthsGrow(y, 1, m);
    MonthsGrow(y, m, 12);
    YearEnd(y, 12);
    CountsDays(y, 12, 31);
    DayStep(y, 12, 31);
    YearStart(y);
    YearStart(y + 1);
  }

  /** Later dates have larger day numbers, so no two dates share one. */
  lemma Monotone(y: int, m: int, d: int, y': int, m': int, d': int)
    requires IsDate(y, m, d) && IsDate(y', m', d')
    ensures Earlier(y, m, d, y', m', d') <==> DaysFromCivil(y, m, d) < DaysFromCivil(y', m', d')
    ensures DaysFromCivil(y, m, d) == DaysFromCivil(y', m', d') ==> (y, m, d) == (y', m', d')
  {
    IsDayCount(y, m, d);
    IsDayCount(y', m', d');
    if Earlier(y, m, d, y', m', d') {
      Increasing(y, m, d, y', m', d');
    } else if Earlier(y', m', d', y, m, d) {
      Increasing(y', m', d', y, m, d);
    }
  }

  lemma Increasing(y: int, m: int, d: int, y': int, m': int, d': int)
    requires IsDate(y, m, d) && IsDate(y', m', d') && Earlier(y, m, d, y', m', d')
    ensures DayCount(y, m, d) < DayCount(y', m', d')
  {
    if y < y' {
      WithinYear(y, m, d);
      WithinYear(y', m', d');
      YearsGrow(y + 1, y');
    } else if m < m' {
      MonthsGrow(y, m, m');
    }
  }

  /** Every day number between those of two dates belongs to a date between them. */
  lemma {:induction false} DateOf(n: int, y0: int, y1: int) returns (y: int, m: int, d: int)
    requires y0 <= y1 && DaysBeforeYear(y0) <= n < DaysBeforeYear(y1 + 1)
    ensures y0 <= y <= y1 && IsDate(y, m, d) && DaysFromCivil(y, m, d) == n
    decreases n - DaysBeforeYear(y0)
  {
    hide DaysFromCivil, DaysBeforeMonth, IsLeap, DaysInMonth;
    if n == DaysBeforeYear(y0) {
      y, m, d := y0, 1, 1;
      YearStart(y0);
    } else {
      y, m, d := DateOf(n - 1, y0, y1);
      CountsDays(y, m, d);
      var next := NextDay(y, m, d);
      if next.0 > y1 {
        YearStart(y1 + 1);
        assert false;
      }
      y, m, d := next.0, next.1, next.2;
    }
  }
}
