/**
 * Calendar dates as the store keys them: proleptic Gregorian (year, month, day)
 * triples in the range of Python's `date` (years 1 to 9999), and the one piece of
 * date arithmetic the queries use, stepping forward by one day.
 */
module Dates {

  datatype Ymd = Ymd(year: int, month: int, day: int)

  const MinYear := 1
  const MaxYear := 9999

  predicate IsLeapYear(y: int) {
    y % 4 == 0 && (y % 100 != 0 || y % 400 == 0)
  }

  function DaysInMonth(y: int, m: int): (n: int)
    requires 1 <= m <= 12
    ensures 28 <= n <= 31
    ensures n == 29 <==> m == 2 && IsLeapYear(y)
  {
    if m == 2 then (if IsLeapYear(y) then 29 else 28)
    else if m == 4 || m == 6 || m == 9 || m == 11 then 30
    else 31
  }

  predicate IsValid(d: Ymd) {
    MinYear <= d.year <= MaxYear && 1 <= d.month <= 12 && 1 <= d.day <= DaysInMonth(d.year, d.month)
  }

  /** A date that Python's `date` constructor accepts. */
  type Date = d: Ymd | IsValid(d) witness Ymd(MinYear, 1, 1)

  /** The last representable date: one day after it, date arithmetic overflows. */
  const LastDate: Date := Ymd(MaxYear, 12, 31)

  /** Chronological order. */
  predicate Before(a: Ymd, b: Ymd) {
    a.year < b.year || (a.year == b.year && (a.month < b.month || (a.month == b.month && a.day < b.day)))
  }

  /**
   * `d + timedelta(days=1)`: the date immediately after d (NextDayIsSuccessor).
   * Undefined (an overflow) after LastDate.
   */
  function NextDay(d: Date): (r: Date)
    requires d != LastDate
    ensures Before(d, r)
  {
    if d.day < DaysInMonth(d.year, d.month) then Ymd(d.year, d.month, d.day + 1)
    else if d.month < 12 then Ymd(d.year, d.month + 1, 1)
    else Ymd(d.year + 1, 1, 1)
  }

  /** No valid date lies strictly between d and NextDay(d). */
  lemma NextDayIsSuccessor(d: Date, e: Date)
    requires d != LastDate
    requires Before(d, e)
    ensures e == NextDay(d) || Before(NextDay(d), e)
  {
  }
}
