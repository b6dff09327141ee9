/**
  The fetch window of loadItems and the year list of getYears, over the
  proleptic Gregorian calendar.

  A civil date maps to a day number by counting whole months from January of
  year 0: month index k = 12 * year + (month - 1), and MonthStart(k) is the day
  number of the first day of month k.
 */
module Window {
  import opened Records

  datatype Date = Date(year: int, month: int, day: int)

  predicate IsLeapYear(y: int) {
    y % 4 == 0 && (y % 100 != 0 || y % 400 == 0)
  }

  function DaysInMonth(y: int, m: int): (n: int)
    requires 1 <= m <= 12
    ensures 28 <= n <= 31
    ensures m == 2 ==> (n == 29 <==> IsLeapYear(y))
  {
    if m == 2 then (if IsLeapYear(y) then 29 else 28)
    else if m == 4 || m == 6 || m == 9 || m == 11 then 30
    else 31
  }

  predicate ValidDate(d: Date) {
    1 <= d.month <= 12 && 1 <= d.day <= DaysInMonth(d.year, d.month)
  }

  /** Months counted from January of year 0; negative before it. */
  function MonthIndex(d: Date): int {
    12 * d.year + (d.month - 1)
  }

  function YearOf(k: int): int {
    k / 12
  }

  function MonthOf(k: int): (m: int)
    ensures 1 <= m <= 12
  {
    k % 12 + 1
  }

  function MonthLength(k: int): (n: int)
    ensures 28 <= n <= 31
  {
    DaysInMonth(YearOf(k), MonthOf(k))
  }

  /** The day number of the first day of month k. */
  function MonthStart(k: int): int
    decreases if k < 0 then -k else k
  {
    if k == 0 then 0
    else if k > 0 then MonthStart(k - 1) + MonthLength(k - 1)
    else MonthStart(k + 1) - MonthLength(k)
  }

  /** The day number of a civil date. */
  function DayNumber(d: Date): Day {
    MonthStart(MonthIndex(d)) + d.day - 1
  }

  /** Month k ends the day before month k + 1 starts. */
  lemma MonthStartNext(k: int)
    ensures MonthStart(k + 1) == MonthStart(k) + MonthLength(k)
  {
  }

  /**
    The month table adds up to the length of a year: 366 days in a leap year,
    365 otherwise.
   */
  lemma YearLength(y: int)
    ensures MonthStart(12 * (y + 1)) - MonthStart(12 * y) == if IsLeapYear(y) then 366 else 365
  {
    MonthOfYear(y, 0); MonthOfYear(y, 1); MonthOfYear(y, 2); MonthOfYear(y, 3);
    MonthOfYear(y, 4); MonthOfYear(y, 5); MonthOfYear(y, 6); MonthOfYear(y, 7);
    MonthOfYear(y, 8); MonthOfYear(y, 9); MonthOfYear(y, 10); MonthOfYear(y, 11);
  }

  /** Month j (from 0) of year y runs for that month's length in the table. */
  lemma MonthOfYear(y: int, j: int)
    requires 0 <= j < 12
    ensures MonthStart(12 * y + j + 1) == MonthStart(12 * y + j) + DaysInMonth(y, j + 1)
  {
    assert YearOf(12 * y + j) == y && MonthOf(12 * y + j) == j + 1;
    MonthStartNext(12 * y + j);
  }

  lemma {:induction false} MonthStartMonotone(a: int, b: int)
    requires a <= b
    ensures MonthStart(a) <= MonthStart(b)
    ensures a < b ==> MonthStart(a) < MonthStart(b)
    decreases b - a
  {
    if a < b {
      MonthStartNext(a);
      MonthStartMonotone(a + 1, b);
    }
  }

  /** A valid date lies in the days of its own month. */
  lemma DayInMonth(d: Date)
    requires ValidDate(d)
    ensures MonthStart(MonthIndex(d)) <= DayNumber(d) < MonthStart(MonthIndex(d) + 1)
  {
    var k := MonthIndex(d);
    assert YearOf(k) == d.year && MonthOf(k) == d.month;
    MonthStartNext(k);
  }

  function FirstOfMonth(k: int): (d: Date)
    ensures ValidDate(d) && MonthIndex(d) == k && d.day == 1
  {
    Date(YearOf(k), MonthOf(k), 1)
  }

  function LastOfMonth(k: int): (d: Date)
    ensures ValidDate(d) && MonthIndex(d) == k && d.day == DaysInMonth(d.year, d.month)
  {
    Date(YearOf(k), MonthOf(k), DaysInMonth(YearOf(k), MonthOf(k)))
  }

  /**
    The window loadItems asks for around a reference date: the first day of the
    month two months earlier and the last day of the month two months later
    (the day of the month does not matter, and the year wraps).
   */
  function WindowDates(reference: Date): (w: (Date, Date))
    ensures ValidDate(w.0) && ValidDate(w.1)
    ensures MonthIndex(w.0) == MonthIndex(reference) - 2 && w.0.day == 1
    ensures MonthIndex(w.1) == MonthIndex(reference) + 2 && w.1.day == DaysInMonth(w.1.year, w.1.month)
  {
    (FirstOfMonth(MonthIndex(reference) - 2), LastOfMonth(MonthIndex(reference) + 2))
  }

  /** The fetched range, as day numbers, both ends included. */
  datatype Range = Range(first: Day, last: Day)

  /**
    The window as day numbers: a day is fetched exactly when its month lies
    within two months of the reference month; once a start is selected, the
    lower bound is that start instead.
   */
  function FetchWindow(reference: Date, start: Option<Day>): (w: Range)
    ensures start.Some? ==> w.first == start.value
    ensures start.None? ==> forall d | ValidDate(d) ::
      (w.first <= DayNumber(d) <==> MonthIndex(reference) - 2 <= MonthIndex(d))
    ensures forall d | ValidDate(d) ::
      (DayNumber(d) <= w.last <==> MonthIndex(d) <= MonthIndex(reference) + 2)
  {
    var (firstDate, lastDate) := WindowDates(reference);
    var k := MonthIndex(reference);
    LowerBoundIsMonthStart(k - 2);
    UpperBoundIsMonthEnd(k + 2);
    Range(match start case Some(s) => s case None => DayNumber(firstDate), DayNumber(lastDate))
  }

  lemma LowerBoundIsMonthStart(k: int)
    ensures forall d | ValidDate(d) :: DayNumber(FirstOfMonth(k)) <= DayNumber(d) <==> k <= MonthIndex(d)
  {
    assert DayNumber(FirstOfMonth(k)) == MonthStart(k);
    forall d | ValidDate(d)
      ensures DayNumber(FirstOfMonth(k)) <= DayNumber(d) <==> k <= MonthIndex(d)
    {
      DayInMonth(d);
      if k <= MonthIndex(d) {
        MonthStartMonotone(k, MonthIndex(d));
      } else {
        MonthStartMonotone(MonthIndex(d) + 1, k);
      }
    }
  }

  lemma UpperBoundIsMonthEnd(k: int)
    ensures forall d | ValidDate(d) :: DayNumber(d) <= DayNumber(LastOfMonth(k)) <==> MonthIndex(d) <= k
  {
    MonthStartNext(k);
    assert DayNumber(LastOfMonth(k)) == MonthStart(k + 1) - 1;
    forall d | ValidDate(d)
      ensures DayNumber(d) <= DayNumber(LastOfMonth(k)) <==> MonthIndex(d) <= k
    {
      DayInMonth(d);
      if MonthIndex(d) <= k {
        MonthStartMonotone(MonthIndex(d) + 1, k + 1);
      } else {
        MonthStartMonotone(k + 1, MonthIndex(d));
      }
    }
  }

  /** With no start selected the window holds the reference day itself. */
  lemma WindowHoldsReference(reference: Date)
    requires ValidDate(reference)
    ensures var w := FetchWindow(reference, None);
      w.first <= DayNumber(reference) <= w.last
  {
  }

  /** The window of 15 June 2024: April to August of the same year. */
  lemma WindowOfMidYear()
    ensures WindowDates(Date(2024, 6, 15)) == (Date(2024, 4, 1), Date(2024, 8, 31))
  {
    assert MonthIndex(Date(2024, 6, 15)) == 24293;
    assert YearOf(24291) == 2024 && MonthOf(24291) == 4;
    assert YearOf(24295) == 2024 && MonthOf(24295) == 8;
  }

  /** In January the lower bound wraps back into the previous year. */
  lemma WindowWrapsBack()
    ensures WindowDates(Date(2024, 1, 31)) == (Date(2023, 11, 1), Date(2024, 3, 31))
  {
    assert MonthIndex(Date(2024, 1, 31)) == 24288;
    assert YearOf(24286) == 2023 && MonthOf(24286) == 11;
    assert YearOf(24290) == 2024 && MonthOf(24290) == 3;
  }

  /** In December the upper bound wraps forward, onto a leap-year February. */
  lemma WindowWrapsForward()
    ensures WindowDates(Date(2023, 12, 5)) == (Date(2023, 10, 1), Date(2024, 2, 29))
  {
    assert MonthIndex(Date(2023, 12, 5)) == 24287;
    assert YearOf(24285) == 2023 && MonthOf(24285) == 10;
    assert YearOf(24289) == 2024 && MonthOf(24289) == 2;
  }

  /** A load request: the new current date and the window to fetch. */
  datatype Load = Load(current: Date, window: Range)

  /**
    loadItems: the reference date is the one passed in, or else the current
    date; it becomes the new current date and centres the window.
   */
  function LoadItems(current: Date, passed: Option<Date>, start: Option<Day>): (l: Load)
    ensures l.current == (if passed.Some? then passed.value else current)
    ensures l.window == FetchWindow(l.current, start)
  {
    var reference := match passed case Some(p) => p case None => current;
    Load(reference, FetchWindow(reference, start))
  }

  /** getYears: the eleven years from five before to five after the current one, in order. */
  method GetYears(year: int) returns (years: seq<int>)
    ensures |years| == 11
    ensures forall k | 0 <= k < |years| :: years[k] == year - 5 + k
  {
    years := [];
    var i := year - 5;
    while i <= year + 5
      invariant year - 5 <= i <= year + 6
      invariant |years| == i - (year - 5)
      invariant forall k | 0 <= k < |years| :: years[k] == year - 5 + k
    {
      years := years + [i];
      i := i + 1;
    }
  }
}
