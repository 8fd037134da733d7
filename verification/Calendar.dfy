/**
 Gregorian dates, their order, and the day numbers Python's `datetime` counts
 them by. Years are unbounded in both directions.
 */
module Calendar {
  datatype Date = Date(y: int, m: int, d: int)

  predicate Leap(y: int) {
    y % 4 == 0 && (y % 100 != 0 || y % 400 == 0)
  }

  function DaysInMonth(y: int, m: int): (n: int)
    ensures 28 <= n <= 31
  {
    if m == 2 then (if Leap(y) then 29 else 28)
    else if m == 4 || m == 6 || m == 9 || m == 11 then 30
    else 31
  }

  predicate Exists(date: Date) {
    1 <= date.m <= 12 && 1 <= date.d <= DaysInMonth(date.y, date.m)
  }

  type Day = date: Date | Exists(date) witness Date(1, 1, 1)

  predicate Before(a: Day, b: Day) {
    a.y < b.y || (a.y == b.y && (a.m < b.m || (a.m == b.m && a.d < b.d)))
  }

  // ----- the day before and the day after ---------------------------------------------

  function NextDay(date: Day): Day {
    if date.d < DaysInMonth(date.y, date.m) then Date(date.y, date.m, date.d + 1)
    else if date.m < 12 then Date(date.y, date.m + 1, 1)
    else Date(date.y + 1, 1, 1)
  }

  function PreviousDay(date: Day): Day {
    if date.d > 1 then Date(date.y, date.m, date.d - 1)
    else if date.m > 1 then Date(date.y, date.m - 1, DaysInMonth(date.y, date.m - 1))
    else Date(date.y - 1, 12, 31)
  }

  lemma NextAndPreviousInvert(date: Day)
    ensures PreviousDay(NextDay(date)) == date && NextDay(PreviousDay(date)) == date
  {
  }

  /** Nothing lies between a day and the next one. */
  lemma NextDayIsNext(a: Day, b: Day)
    ensures Before(a, NextDay(a))
    ensures Before(a, b) <==> b == NextDay(a) || Before(NextDay(a), b)
  {
  }

  // ----- day numbers --------------------------------------------------------------

  function DaysBeforeYear(y: int): int {
    365 * (y - 1) + (y - 1) / 4 - (y - 1) / 100 + (y - 1) / 400
  }

  function DaysBeforeMonth(y: int, m: int): (n: int)
    requires 1 <= m <= 13
    ensures m == 13 ==> n == if Leap(y) then 366 else 365
    decreases m
  {
    var extra := if Leap(y) then 1 else 0;
    match m
    case 1 => 0
    case 2 => 31
    case 3 => 59 + extra
    case 4 => 90 + extra
    case 5 => 120 + extra
    case 6 => 151 + extra
    case 7 => 181 + extra
    case 8 => 212 + extra
    case 9 => 243 + extra
    case 10 => 273 + extra
    case 11 => 304 + extra
    case 12 => 334 + extra
    case _ => 365 + extra
  }

  /** `date.toordinal()` */
  function Ordinal(date: Day): int {
    DaysBeforeYear(date.y) + DaysBeforeMonth(date.y, date.m) + date.d
  }

  lemma MonthStep(y: int, m: int)
    requires 1 <= m <= 12
    ensures DaysBeforeMonth(y, m + 1) == DaysBeforeMonth(y, m) + DaysInMonth(y, m)
  {
  }

  lemma YearStep(y: int)
    ensures DaysBeforeYear(y + 1) == DaysBeforeYear(y) + if Leap(y) then 366 else 365
  {
    LeapCount(y);
  }

  lemma LeapCount(y: int)
    ensures y / 4 - (y - 1) / 4 == if y % 4 == 0 then 1 else 0
    ensures y / 100 - (y - 1) / 100 == if y % 100 == 0 then 1 else 0
    ensures y / 400 - (y - 1) / 400 == if y % 400 == 0 then 1 else 0
    ensures y % 400 == 0 ==> y % 100 == 0
    ensures y % 100 == 0 ==> y % 4 == 0
  {
  }

  lemma {:induction false} YearsAscend(a: int, b: int)
    requires a <= b
    ensures DaysBeforeYear(a) + 365 * (b - a) <= DaysBeforeYear(b) <= DaysBeforeYear(a) + 366 * (b - a)
    decreases b - a
  {
    if a >= b {
    } else {
      YearStep(a);
      YearsAscend(a + 1, b);
    }
  }

  lemma {:induction false} MonthsAscend(y: int, a: int, b: int)
    requires 1 <= a <= b <= 13
    ensures DaysBeforeMonth(y, a) <= DaysBeforeMonth(y, b)
    ensures a < b ==> DaysBeforeMonth(y, a) + DaysInMonth(y, a) <= DaysBeforeMonth(y, b)
    decreases b - a
  {
    if a >= b {
    } else {
      MonthStep(y, a);
      MonthsAscend(y, a + 1, b);
    }
  }

  lemma DayInYear(date: Day)
    ensures DaysBeforeYear(date.y) < Ordinal(date) <= DaysBeforeYear(date.y + 1)
  {
    MonthsAscend(date.y, 1, date.m);
    MonthsAscend(date.y, date.m, 13);
    YearStep(date.y);
  }

  /** The calendar order is the order of the day numbers. */
  lemma OrdinalAscends(a: Day, b: Day)
    requires Before(a, b)
    ensures Ordinal(a) < Ordinal(b)
  {
    if a.y < b.y {
      DayInYear(a);
      DayInYear(b);
      YearsAscend(a.y + 1, b.y);
    } else if a.m < b.m {
      MonthsAscend(a.y, a.m, b.m);
    }
  }

  lemma OrdinalOrders(a: Day, b: Day)
    ensures Before(a, b) <==> Ordinal(a) < Ordinal(b)
    ensures a == b <==> Ordinal(a) == Ordinal(b)
  {
    if Before(a, b) {
      OrdinalAscends(a, b);
    } else if Before(b, a) {
      OrdinalAscends(b, a);
    }
  }

  // ----- moving by days -------------------------------------------------------------

  lemma NextDayCounts(date: Day)
    ensures Ordinal(NextDay(date)) == Ordinal(date) + 1
  {
    MonthStep(date.y, date.m);
    YearStep(date.y);
  }

  lemma PreviousDayCounts(date: Day)
    ensures Ordinal(PreviousDay(date)) == Ordinal(date) - 1
  {
    NextAndPreviousInvert(date);
    NextDayCounts(PreviousDay(date));
  }

  /** `date + timedelta(days=n)` */
  function AddDays(date: Day, n: int): Day
    decreases if n < 0 then -n else n
  {
    if n == 0 then date
    else if n > 0 then AddDays(NextDay(date), n - 1)
    else AddDays(PreviousDay(date), n + 1)
  }

  /** Adding days adds to the day number, and so names one date. */
  lemma {:induction false} AddDaysCounts(date: Day, n: int)
    ensures Ordinal(AddDays(date, n)) == Ordinal(date) + n
    decreases if n < 0 then -n else n
  {
    if n > 0 {
      NextDayCounts(date);
      AddDaysCounts(NextDay(date), n - 1);
    } else if n < 0 {
      PreviousDayCounts(date);
      AddDaysCounts(PreviousDay(date), n + 1);
    }
  }

  // ----- months ------------------------------------------------------------------------

  /** Months counted one by one, so that the next month is the next number. */
  function MonthIndex(date: Day): int {
    date.y * 12 + (date.m - 1)
  }

  function FirstOf(index: int): (r: Day)
    ensures MonthIndex(r) == index && r.d == 1
  {
    Date(index / 12, index % 12 + 1, 1)
  }

  lemma MonthIndexIdentifies(date: Day)
    ensures FirstOf(MonthIndex(date)) == Date(date.y, date.m, 1)
  {
  }

  /** The calendar order, month by month. */
  lemma BeforeByMonth(a: Day, b: Day)
    ensures Before(a, b) <==> MonthIndex(a) < MonthIndex(b) || (MonthIndex(a) == MonthIndex(b) && a.d < b.d)
  {
  }

  lemma FirstsInOrder(a: int, b: int)
    ensures Before(FirstOf(a), FirstOf(b)) <==> a < b
  {
    BeforeByMonth(FirstOf(a), FirstOf(b));
  }

  lemma PreviousDayMonth(date: Day)
    ensures MonthIndex(PreviousDay(date)) == MonthIndex(date) - if date.d == 1 then 1 else 0
  {
  }

  lemma NextDayMonth(date: Day)
    ensures MonthIndex(NextDay(date)) == MonthIndex(date) + if date.d == DaysInMonth(date.y, date.m) then 1 else 0
  {
  }
}
