/** The Gregorian calendar helpers of decode.go: isLeap, the daysBefore
    table, daysIn and isValidDate. */
module Calendar {

  /** isLeap: divisible by 4, and either not by 100 or else by 400. A zero
      remainder means the same under Go's truncating `%` and Dafny's
      Euclidean one, so the test carries over for negative years too. */
  predicate IsLeap(year: int): (leap: bool)
    ensures leap ==> year % 4 == 0
    ensures year % 400 == 0 ==> leap
    ensures year % 100 == 0 && year % 400 != 0 ==> !leap
  {
    year % 4 == 0 && (year % 100 != 0 || year % 400 == 0)
  }

  /** daysBefore[m]: the days of a non-leap year before month m begins, with
      an entry for m = 12 counting the whole year. */
  const DaysBefore: seq<int> := [
    0,
    31,
    31 + 28,
    31 + 28 + 31,
    31 + 28 + 31 + 30,
    31 + 28 + 31 + 30 + 31,
    31 + 28 + 31 + 30 + 31 + 30,
    31 + 28 + 31 + 30 + 31 + 30 + 31,
    31 + 28 + 31 + 30 + 31 + 30 + 31 + 31,
    31 + 28 + 31 + 30 + 31 + 30 + 31 + 31 + 30,
    31 + 28 + 31 + 30 + 31 + 30 + 31 + 31 + 30 + 31,
    31 + 28 + 31 + 30 + 31 + 30 + 31 + 31 + 30 + 31 + 30,
    31 + 28 + 31 + 30 + 31 + 30 + 31 + 31 + 30 + 31 + 30 + 31
  ]

  /** A month number that daysIn can look up: it reads daysBefore[m] and
      daysBefore[m - 1], so only 1..12 stay inside the table. */
  predicate IsMonth(m: int) {
    1 <= m < |DaysBefore|
  }

  /** daysIn: 29 for February of a leap year, otherwise the difference of two
      consecutive table entries. */
  function DaysIn(m: int, year: int): (d: int)
    requires IsMonth(m)
    ensures 28 <= d <= 31
  {
    if m == 2 && IsLeap(year) then 29 else DaysBefore[m] - DaysBefore[m - 1]
  }

  /** isValidDate as written: only the upper bound on the day is checked. */
  predicate IsValidDateAsWritten(year: int, month: int, day: int): (valid: bool)
    requires IsMonth(month)
    ensures valid ==> day <= 31
    ensures day <= 28 ==> valid
  {
    day <= DaysIn(month, year)
  }

  /** A date that exists: a month 1..12 and a day from 1 to the length of
      that month. */
  predicate IsValidDate(year: int, month: int, day: int) {
    IsMonth(month) && 1 <= day <= DaysIn(month, year)
  }

  /** The month lengths of the Gregorian calendar, written out independently
      of the table. */
  function MonthLength(m: int, year: int): (d: int)
    requires 1 <= m <= 12
  {
    if m == 2 then (if IsLeap(year) then 29 else 28)
    else if m in {4, 6, 9, 11} then 30
    else 31
  }

  /** The table reproduces the month lengths. */
  lemma DaysInIsMonthLength(m: int, year: int)
    requires 1 <= m <= 12
    ensures DaysIn(m, year) == MonthLength(m, year)
  {
  }

  /** February has 29 days exactly in leap years; the other months do not
      depend on the year. */
  lemma FebruaryLeap(year: int, other: int)
    ensures DaysIn(2, year) == 29 <==> IsLeap(year)
    ensures forall m :: IsMonth(m) && m != 2 ==> DaysIn(m, year) == DaysIn(m, other)
  {
  }

  /** The last table entry is the length of a common year. */
  lemma DaysBeforeYear()
    ensures |DaysBefore| == 13 && DaysBefore[12] == 365
  {
  }

  /** The days of the months before m, counted with daysIn. */
  function DaysBeforeMonth(m: int, year: int): (n: int)
    requires 0 <= m <= 12
    decreases m
  {
    if m == 0 then 0 else DaysBeforeMonth(m - 1, year) + DaysIn(m, year)
  }

  /** Counting months with daysIn agrees with the table, shifted by one day
      from March on in a leap year. */
  lemma {:induction false} DaysBeforeMonthTable(m: int, year: int)
    requires 0 <= m <= 12
    ensures DaysBeforeMonth(m, year) == DaysBefore[m] + (if m >= 2 && IsLeap(year) then 1 else 0)
    decreases m
  {
    if m > 0 {
      DaysBeforeMonthTable(m - 1, year);
    }
  }

  /** A year has 365 days, or 366 when it is a leap year. */
  lemma YearLength(year: int)
    ensures DaysBeforeMonth(12, year) == if IsLeap(year) then 366 else 365
  {
    DaysBeforeMonthTable(12, year);
  }

  /** The leap rule repeats every 400 years. */
  lemma LeapCycle(year: int)
    ensures IsLeap(year + 400) == IsLeap(year)
  {
    ShiftByCycle(year);
  }

  /** 400 is a multiple of 4, 100 and 400. */
  lemma ShiftByCycle(year: int)
    ensures (year + 400) % 4 == year % 4
    ensures (year + 400) % 100 == year % 100
    ensures (year + 400) % 400 == year % 400
  {
    ShiftMod(year, 4, 100);
    ShiftMod(year, 100, 4);
    ShiftMod(year, 400, 1);
  }

  lemma ShiftMod(year: int, m: int, k: int)
    requires m in {4, 100, 400} && m * k == 400
    ensures (year + 400) % m == year % m
  {
    var q, r := year / m, year % m;
    assert year + 400 == m * (q + k) + r;
  }

  /** The two forms of isValidDate differ only on day 0 and below. */
  lemma ValidDateForms(year: int, month: int, day: int)
    requires IsMonth(month)
    ensures IsValidDate(year, month, day) <==> IsValidDateAsWritten(year, month, day) && day >= 1
  {
  }
}
