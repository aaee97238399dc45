/** The minimum-age rule of the birth-date field: a birth date is accepted when
    the date eighteen years later, as the JavaScript `Date` constructor
    normalises it, is not after today. Dates are (year, month 1..12, day)
    triples of the proleptic Gregorian calendar; today's date is a parameter. */
module Age {
  import opened JsValues

  datatype Date = Date(year: int, month: int, day: int)

  predicate IsLeapYear(y: int) {
    y % 4 == 0 && (y % 100 != 0 || y % 400 == 0)
  }

  function DaysInMonth(y: int, m: int): (n: int)
    requires 1 <= m <= 12
    ensures 28 <= n <= 31
    ensures m != 2 ==> n == (if m in {4, 6, 9, 11} then 30 else 31)
  {
    if m == 2 then (if IsLeapYear(y) then 29 else 28)
    else if m in {4, 6, 9, 11} then 30
    else 31
  }

  predicate ValidDate(d: Date) {
    1 <= d.month <= 12 && 1 <= d.day <= DaysInMonth(d.year, d.month)
  }

  /** A date that exists in the calendar, as the `getUTC*` accessors of a
      valid `Date` return it. */
  type CalendarDate = d: Date | ValidDate(d) witness Date(2000, 1, 1)

  /** Calendar order. */
  predicate OnOrBefore(a: Date, b: Date) {
    a.year < b.year ||
    (a.year == b.year && (a.month < b.month || (a.month == b.month && a.day <= b.day)))
  }

  /** `new Date(y, m - 1, d)` for a day past the end of its month: the excess
      days roll into the following months (29 February of a common year
      becomes 1 March). */
  function Normalize(y: int, m: int, d: int): (r: CalendarDate)
    requires 1 <= m <= 12 && d >= 1
    ensures d <= DaysInMonth(y, m) ==> r == Date(y, m, d)
    ensures d > DaysInMonth(y, m) ==> !OnOrBefore(r, Date(y, m, d)) && r.day <= d
    decreases d
  {
    if d <= DaysInMonth(y, m) then Date(y, m, d)
    else if m == 12 then Normalize(y + 1, 1, d - 31)
    else Normalize(y, m + 1, d - DaysInMonth(y, m))
  }

  /** `maiorQue18`: the birth date plus eighteen years, normalised, is on or
      before today. An unparseable date compares as NaN, which is never
      `<=`, so it fails. */
  predicate MaiorQue18(birth: Option<CalendarDate>, today: CalendarDate) {
    match birth
    case None => false
    case Some(b) => OnOrBefore(Normalize(b.year + 18, b.month, b.day), today)
  }

  /** Completed years of age on `today`, counted the usual way: the
      difference of the years, less one when today's month and day come
      before the birthday's. */
  function CompletedYears(b: Date, today: Date): int {
    today.year - b.year -
    (if today.month < b.month || (today.month == b.month && today.day < b.day) then 1 else 0)
  }

  /** Eighteen years on from a valid date only overflows for 29 February,
      which becomes 1 March of a common year. */
  lemma EighteenYearsLater(b: CalendarDate)
    ensures b.day <= DaysInMonth(b.year + 18, b.month) ==>
              Normalize(b.year + 18, b.month, b.day) == Date(b.year + 18, b.month, b.day)
    ensures b.day > DaysInMonth(b.year + 18, b.month) ==>
              b.month == 2 && b.day == 29 && !IsLeapYear(b.year + 18) &&
              Normalize(b.year + 18, b.month, b.day) == Date(b.year + 18, 3, 1)
  {
  }

  /** The rule agrees with counting completed years: a birth date is
      accepted exactly when the person has turned eighteen by today, someone
      born on 29 February turning eighteen on 1 March of a common year. */
  lemma MaiorQue18IffEighteen(b: CalendarDate, today: CalendarDate)
    ensures MaiorQue18(Some(b), today) <==> CompletedYears(b, today) >= 18
  {
    EighteenYearsLater(b);
  }

  /** The eighteenth birthday itself is accepted. */
  lemma EighteenthBirthdayAccepted(b: CalendarDate)
    requires ValidDate(Date(b.year + 18, b.month, b.day))
    ensures MaiorQue18(Some(b), Date(b.year + 18, b.month, b.day))
  {
    EighteenYearsLater(b);
  }

  /** No day before the eighteenth birthday is accepted, whether in the same
      month or across a month or year boundary. */
  lemma DayBeforeRejected(b: CalendarDate, today: CalendarDate)
    requires ValidDate(Date(b.year + 18, b.month, b.day))
    requires !OnOrBefore(Date(b.year + 18, b.month, b.day), today)
    ensures !MaiorQue18(Some(b), today)
  {
    EighteenYearsLater(b);
  }

  /** Once accepted, a birth date stays accepted on every later day. */
  lemma AcceptedStaysAccepted(b: CalendarDate, today: CalendarDate, later: CalendarDate)
    requires MaiorQue18(Some(b), today) && OnOrBefore(today, later)
    ensures MaiorQue18(Some(b), later)
  {
  }

  /** An unparseable date is never accepted. */
  lemma UnparseableRejected(today: CalendarDate)
    ensures !MaiorQue18(None, today)
  {
  }

  /** Boundary examples: born 1 January 2000, rejected on 31 December 2017
      and accepted on 1 January 2018; born 29 February 2000, rejected on
      28 February 2018 and accepted on 1 March 2018. */
  lemma BoundaryExamples()
    ensures !MaiorQue18(Some(Date(2000, 1, 1)), Date(2017, 12, 31))
    ensures MaiorQue18(Some(Date(2000, 1, 1)), Date(2018, 1, 1))
    ensures !MaiorQue18(Some(Date(2000, 2, 29)), Date(2018, 2, 28))
    ensures MaiorQue18(Some(Date(2000, 2, 29)), Date(2018, 3, 1))
  {
  }
}
