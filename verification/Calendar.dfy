/** The proleptic Gregorian calendar: dates as day numbers, counting 1 January of year 1, a Monday, as day 1. */
module Calendar {

  datatype CivilDate = CivilDate(year: int, month: int, day: int)

  predicate IsLeap(year: int) {
    year % 4 == 0 && (year % 100 != 0 || year % 400 == 0)
  }

  function DaysIn(year: int, month: int): nat {
    if month == 2 then if IsLeap(year) then 29 else 28
    else if month == 4 || month == 6 || month == 9 || month == 11 then 30
    else 31
  }

  predicate ValidDate(d: CivilDate) {
    1 <= d.month <= 12 && 1 <= d.day <= DaysIn(d.year, d.month)
  }

  function DaysBeforeYear(year: int): int {
    var y := year - 1;
    365 * y + y / 4 - y / 100 + y / 400
  }

  function DaysBeforeMonth(year: int, month: int): int {
    if month <= 1 then 0 else DaysBeforeMonth(year, month - 1) + DaysIn(year, month - 1)
  }

  function DayNumber(d: CivilDate): int {
    DaysBeforeYear(d.year) + DaysBeforeMonth(d.year, d.month) + d.day
  }

  /** Days since Monday. */
  function Weekday(day: int): nat {
    (day - 1) % 7
  }

  /** Which Monday-based week a day is in. */
  function Week(day: int): int {
    (day - 1) / 7
  }

  function FirstOfMonth(d: CivilDate): CivilDate {
    CivilDate(d.year, d.month, 1)
  }

  function FirstOfNextMonth(d: CivilDate): CivilDate {
    if d.month == 12 then CivilDate(d.year + 1, 1, 1) else CivilDate(d.year, d.month + 1, 1)
  }

  lemma Quotient(y: int, n: int)
    requires n == 4 || n == 100 || n == 400
    ensures y / n == (y - 1) / n + if y % n == 0 then 1 else 0
  {
  }

  lemma Multiples(y: int)
    ensures (y % 100 == 0 ==> y % 4 == 0) && (y % 400 == 0 ==> y % 100 == 0)
  {
  }

  lemma LeapDays(y: int, a: int, b: int, c: int, a': int, b': int, c': int)
    requires a' == a + if y % 4 == 0 then 1 else 0
    requires b' == b + if y % 100 == 0 then 1 else 0
    requires c' == c + if y % 400 == 0 then 1 else 0
    ensures a' - b' + c' == a - b + c + if IsLeap(y) then 1 else 0
  {
    Multiples(y);
  }

  lemma YearLength(year: int)
    ensures DaysBeforeYear(year + 1) == DaysBeforeYear(year) + DaysBeforeMonth(year, 13)
  {
    var y := year - 1;
    Quotient(year, 4);
    Quotient(year, 100);
    Quotient(year, 400);
    LeapDays(year, y / 4, y / 100, y / 400, year / 4, year / 100, year / 400);
    MonthsAddUp(year);
  }

  lemma MonthsAddUp(year: int)
    ensures DaysBeforeMonth(year, 13) == if IsLeap(year) then 366 else 365
  {
    var february := DaysIn(year, 2);
    assert DaysBeforeMonth(year, 2) == 31;
    assert DaysBeforeMonth(year, 3) == 31 + february;
    assert DaysBeforeMonth(year, 4) == 62 + february;
    assert DaysBeforeMonth(year, 5) == 92 + february;
    assert DaysBeforeMonth(year, 6) == 123 + february;
    assert DaysBeforeMonth(year, 7) == 153 + february;
    assert DaysBeforeMonth(year, 8) == 184 + february;
    assert DaysBeforeMonth(year, 9) == 215 + february;
    assert DaysBeforeMonth(year, 10) == 245 + february;
    assert DaysBeforeMonth(year, 11) == 276 + february;
    assert DaysBeforeMonth(year, 12) == 306 + february;
  }

  lemma {:induction false} MonthsGrow(year: int, m: int, n: int)
    requires 1 <= m < n
    ensures DaysBeforeMonth(year, m) + DaysIn(year, m) <= DaysBeforeMonth(year, n)
    decreases n
  {
    if m < n - 1 {
      MonthsGrow(year, m, n - 1);
    }
  }

  lemma {:induction false} YearsGrow(x: int, y: int)
    requires x < y
    ensures DaysBeforeYear(x) + DaysBeforeMonth(x, 13) <= DaysBeforeYear(y)
    decreases y - x
  {
    YearLength(y - 1);
    if x < y - 1 {
      YearsGrow(x, y - 1);
      MonthsAddUp(y - 1);
    }
  }

  /** The next month starts as many days later as this one has. */
  lemma MonthLength(d: CivilDate)
    requires 1 <= d.month <= 12
    ensures DayNumber(FirstOfNextMonth(d)) == DayNumber(FirstOfMonth(d)) + DaysIn(d.year, d.month)
  {
    if d.month == 12 {
      YearLength(d.year);
    }
  }

  predicate Before(a: CivilDate, b: CivilDate) {
    a.year < b.year || (a.year == b.year && (a.month < b.month || (a.month == b.month && a.day < b.day)))
  }

  /** Day numbers follow the calendar. */
  lemma DayNumbersAreOrdered(a: CivilDate, b: CivilDate)
    requires ValidDate(a) && ValidDate(b) && Before(a, b)
    ensures DayNumber(a) < DayNumber(b)
  {
    if a.year < b.year {
      YearsGrow(a.year, b.year);
      MonthsGrow(a.year, a.month, 13);
      NoEarlierThanJanuary(b);
    } else if a.month < b.month {
      MonthsGrow(a.year, a.month, b.month);
    }
  }

  lemma {:induction false} NoEarlierThanJanuary(d: CivilDate)
    requires d.month >= 1
    ensures DaysBeforeMonth(d.year, d.month) >= 0
    decreases d.month
  {
    if d.month > 1 {
      NoEarlierThanJanuary(d.(month := d.month - 1));
    }
  }

  /** The days of a month's window are exactly that month's dates. */
  lemma MonthWindowMeans(today: CivilDate, d: CivilDate)
    requires ValidDate(today) && ValidDate(d)
    ensures DayNumber(FirstOfMonth(today)) <= DayNumber(d) < DayNumber(FirstOfNextMonth(today)) <==>
            d.year == today.year && d.month == today.month
  {
    var first, next := FirstOfMonth(today), FirstOfNextMonth(today);
    MonthLength(today);
    if d.year == today.year && d.month == today.month {
    } else if Before(d, first) {
      DayNumbersAreOrdered(d, first);
    } else if d != next {
      DayNumbersAreOrdered(next, d);
    }
  }

  /** The seven days from a Monday are exactly those of its week. */
  lemma WeekWindowMeans(today: int, day: int)
    ensures var monday := today - Weekday(today);
            monday <= day < monday + 7 <==> Week(day) == Week(today)
  {
  }

  /** The date after a date. */
  function NextDay(d: CivilDate): CivilDate {
    if d.day < DaysIn(d.year, d.month) then CivilDate(d.year, d.month, d.day + 1)
    else if d.month < 12 then CivilDate(d.year, d.month + 1, 1)
    else CivilDate(d.year + 1, 1, 1)
  }

  /** One day later is one more, over the ends of months and years. */
  lemma NextDayIsOneMore(d: CivilDate)
    requires ValidDate(d)
    ensures ValidDate(NextDay(d)) && DayNumber(NextDay(d)) == DayNumber(d) + 1
  {
    if d.day == DaysIn(d.year, d.month) {
      MonthLength(d);
    }
  }

  /** So the dates from 1 January of year 1 on are numbered without a gap. */
  lemma {:induction false} EveryDayHasADate(day: nat) returns (d: CivilDate)
    requires day >= 1
    ensures ValidDate(d) && DayNumber(d) == day
  {
    if day == 1 {
      d := CivilDate(1, 1, 1);
    } else {
      var before := EveryDayHasADate(day - 1);
      NextDayIsOneMore(before);
      d := NextDay(before);
    }
  }

  /** The dates there are. */
  lemma DatesMean(d: CivilDate)
    ensures ValidDate(d) <==>
            && 1 <= d.month <= 12 && 1 <= d.day <= 31
            && (d.month in {4, 6, 9, 11} ==> d.day <= 30)
            && (d.month == 2 ==> d.day <= 29)
            && (d.month == 2 && d.day == 29 ==> d.year % 4 == 0 && (d.year % 100 == 0 ==> d.year % 400 == 0))
  {
  }

  /** The weekdays go round, and 1 January 2024 was a Monday. */
  lemma WeekdaysGoRound(day: int)
    ensures Weekday(day + 1) == if Weekday(day) == 6 then 0 else Weekday(day) + 1
    ensures Weekday(DayNumber(CivilDate(2024, 1, 1))) == 0
  {
    assert DaysBeforeYear(2024) == 365 * 2023 + 505 - 20 + 5;
    assert DayNumber(CivilDate(2024, 1, 1)) == 738886;
  }

  /** Two days are in one week if some Monday and the six days after it hold them both. */
  lemma WeekMeans(a: int, b: int)
    ensures Week(a) == Week(b) <==> exists m :: Weekday(m) == 0 && m <= a < m + 7 && m <= b < m + 7
  {
    if Week(a) == Week(b) {
      var m := a - Weekday(a);
      assert Weekday(m) == 0;
    }
    if m :| Weekday(m) == 0 && m <= a < m + 7 && m <= b < m + 7 {
      WeekWindowMeans(m, a);
      WeekWindowMeans(m, b);
    }
  }
}
