/**
 The Gregorian calendar by whole months: months are counted from January 1970, days from
 the first of that month. A day of a month past its end is a day of the next one, as in
 Go's date normalisation.
 */
module Calendar {
  import opened Integers

  predicate Leap(year: int) {
    year % 4 == 0 && (year % 100 != 0 || year % 400 == 0)
  }

  function DaysIn(month: int): (d: int)
    ensures 28 <= d <= 31
  {
    var m := month % 12;
    if m == 1 then if Leap(1970 + month / 12) then 29 else 28
    else if m in {3, 5, 8, 10} then 30
    else 31
  }

  /** The first day of a month. */
  function MonthStart(month: int): int
    decreases if month < 0 then -month else month
  {
    if month == 0 then 0
    else if month > 0 then MonthStart(month - 1) + DaysIn(month - 1)
    else MonthStart(month + 1) - DaysIn(month)
  }

  lemma MonthStartNext(month: int)
    ensures MonthStart(month + 1) == MonthStart(month) + DaysIn(month)
  {
  }

  lemma {:induction false} MonthStartGrows(a: int, b: int)
    requires a <= b
    ensures MonthStart(a) + 28 * (b - a) <= MonthStart(b) <= MonthStart(a) + 31 * (b - a)
    decreases b - a
  {
    if a < b {
      MonthStartGrows(a, b - 1);
      MonthStartNext(b - 1);
    }
  }

  /** The days of a month of the year, in a common year. */
  function CommonDays(m: int): int {
    if m == 1 then 28 else if m in {3, 5, 8, 10} then 30 else 31
  }

  /** The days before a month of the year, in a common year. */
  function DaysBefore(m: int): int {
    if m <= 0 then 0
    else if m == 1 then 31
    else if m == 2 then 59
    else if m == 3 then 90
    else if m == 4 then 120
    else if m == 5 then 151
    else if m == 6 then 181
    else if m == 7 then 212
    else if m == 8 then 243
    else if m == 9 then 273
    else if m == 10 then 304
    else 334
  }

  lemma DaysBeforeNext(m: int)
    requires 0 <= m < 12
    ensures DaysBefore(m) + CommonDays(m) == if m == 11 then 365 else DaysBefore(m + 1)
  {
  }

  /** Where the month would start if no year were a leap year. */
  function CommonStart(month: int): int {
    365 * (month / 12) + DaysBefore(month % 12)
  }

  lemma CommonStartNext(month: int)
    ensures CommonStart(month + 1) == CommonStart(month) + CommonDays(month % 12)
    ensures CommonDays(month % 12) <= DaysIn(month)
  {
    DaysBeforeNext(month % 12);
    if month % 12 == 11 {
      assert (month + 1) % 12 == 0 && (month + 1) / 12 == month / 12 + 1;
    } else {
      assert (month + 1) % 12 == month % 12 + 1 && (month + 1) / 12 == month / 12;
    }
  }

  /** Leap days only add up. */
  lemma {:induction false} LeapDaysGrow(a: int, b: int)
    requires a <= b
    ensures MonthStart(a) - CommonStart(a) <= MonthStart(b) - CommonStart(b)
    decreases b - a
  {
    if a < b {
      LeapDaysGrow(a, b - 1);
      MonthStartNext(b - 1);
      CommonStartNext(b - 1);
    }
  }

  /** Any twelve months make at least 365 days. */
  lemma YearLength(month: int)
    ensures MonthStart(month) - MonthStart(month - 12) >= 365
  {
    LeapDaysGrow(month - 12, month);
    assert (month - 12) % 12 == month % 12 && (month - 12) / 12 == month / 12 - 1;
  }

  /** The months of a year have their lengths, February by the leap rule. */
  lemma MonthLength(year: int, i: int)
    requires 0 <= i < 12
    ensures var m := 12 * (year - 1970) + i;
            MonthStart(m + 1) - MonthStart(m) ==
            if i == 1 && year % 4 == 0 && (year % 100 != 0 || year % 400 == 0) then 29
            else [31, 28, 31, 30, 31, 30, 31, 31, 30, 31, 30, 31][i]
  {
    var m := 12 * (year - 1970) + i;
    assert m % 12 == i && 1970 + m / 12 == year;
    MonthStartNext(m);
  }

  /** A year's first day, counted from 1970: a day for every fourth year but for three centuries out of four. */
  function JanuaryFirst(year: int): int {
    365 * (year - 1970) + (year - 1) / 4 - (year - 1) / 100 + (year - 1) / 400 - 477
  }

  /** The first `n` months of the year. */
  lemma {:induction false} MonthsAdd(year: int, n: nat)
    requires n <= 12
    ensures MonthStart(12 * (year - 1970) + n) - MonthStart(12 * (year - 1970)) ==
            (if n > 1 && year % 4 == 0 && (year % 100 != 0 || year % 400 == 0) then 1 else 0) +
            [0, 31, 59, 90, 120, 151, 181, 212, 243, 273, 304, 334, 365][n]
  {
    if n > 0 {
      MonthsAdd(year, n - 1);
      MonthLength(year, n - 1);
    }
  }

  lemma YearDays(year: int)
    ensures MonthStart(12 * (year - 1970) + 12) - MonthStart(12 * (year - 1970)) ==
            JanuaryFirst(year + 1) - JanuaryFirst(year)
  {
    MonthsAdd(year, 12);
    QuotientStep(year, 4);
    QuotientStep(year, 100);
    QuotientStep(year, 400);
  }

  /** A quotient grows by one at each multiple. */
  lemma QuotientStep(year: int, n: int)
    requires n > 0
    ensures year / n - (year - 1) / n == if year % n == 0 then 1 else 0
  {
    var q, r := year / n, year % n;
    if r == 0 {
      DivUnique(year - 1, n, q - 1, n - 1);
    } else {
      DivUnique(year - 1, n, q, r - 1);
    }
  }

  /** Every year starts on the day the Gregorian leap rule says. */
  lemma {:induction false} YearStarts(year: int)
    ensures MonthStart(12 * (year - 1970)) == JanuaryFirst(year)
    decreases if year < 1970 then 1970 - year else year - 1970
  {
    if year > 1970 {
      YearStarts(year - 1);
      YearDays(year - 1);
      assert 12 * (year - 1 - 1970) + 12 == 12 * (year - 1970);
    } else if year < 1970 {
      YearStarts(year + 1);
      YearDays(year);
      assert 12 * (year - 1970) + 12 == 12 * (year + 1 - 1970);
    }
  }

  /** Walks from a month to the one that holds the day. */
  function MonthFrom(day: int, month: int): (m: int)
    ensures MonthStart(m) <= day < MonthStart(m) + DaysIn(m)
    decreases if day < MonthStart(month) then 1 else 0,
        if day < MonthStart(month) then MonthStart(month) - day else day - MonthStart(month)
  {
    MonthStartNext(month);
    MonthStartNext(month - 1);
    if day < MonthStart(month) then MonthFrom(day, month - 1)
    else if day >= MonthStart(month + 1) then MonthFrom(day, month + 1)
    else month
  }

  function MonthOf(day: int): (m: int)
    ensures MonthStart(m) <= day < MonthStart(m) + DaysIn(m)
  {
    MonthFrom(day, 0)
  }

  /** The day of the month, from 1. */
  function DayOf(day: int): (d: int)
    ensures 1 <= d <= 31
  {
    day - MonthStart(MonthOf(day)) + 1
  }

  /** A day number of the month, possibly past its end. */
  function Date(month: int, d: int): int {
    MonthStart(month) + d - 1
  }

  lemma MonthsInOrder(a: int, b: int)
    requires a < b
    ensures MonthStart(a) + DaysIn(a) <= MonthStart(b)
  {
    MonthStartNext(a);
    MonthStartGrows(a + 1, b);
  }

  lemma MonthUnique(day: int, month: int)
    requires MonthStart(month) <= day < MonthStart(month) + DaysIn(month)
    ensures MonthOf(day) == month
  {
    var m := MonthOf(day);
    if m < month {
      MonthsInOrder(m, month);
    } else if month < m {
      MonthsInOrder(month, m);
    }
  }

  /** A day number names its own day iff the month is long enough; past the end it is a day of the next month. */
  lemma DateExact(month: int, d: int)
    requires 1 <= d <= 31
    ensures DayOf(Date(month, d)) == d <==> d <= DaysIn(month)
    ensures d <= DaysIn(month) ==> MonthOf(Date(month, d)) == month
    ensures d > DaysIn(month) ==> MonthOf(Date(month, d)) == month + 1 && DayOf(Date(month, d)) == d - DaysIn(month)
  {
    if d <= DaysIn(month) {
      MonthUnique(Date(month, d), month);
    } else {
      MonthStartNext(month);
      MonthUnique(Date(month, d), month + 1);
    }
  }

  /** Every day is a date. */
  lemma DateOfDay(day: int)
    ensures Date(MonthOf(day), DayOf(day)) == day
    ensures DayOf(day) <= DaysIn(MonthOf(day))
  {
  }
}
