/**
 * A small proleptic Gregorian calendar: civil dates (year, month, day), their
 * ordinal day number (day 1 is 0001-01-01, as in Python's date.toordinal), the
 * day before a date, month and year shifts that clamp the day to the length of
 * the target month (the behaviour of dateutil's relativedelta), and the whole
 * number of months between two dates.
 */
module Calendar {

  datatype CivilDate = CivilDate(year: int, month: int, day: int)

  predicate IsLeapYear(y: int) {
    y % 4 == 0 && (y % 100 != 0 || y % 400 == 0)
  }

  function DaysInYear(y: int): int {
    if IsLeapYear(y) then 366 else 365
  }

  /** The month's length: February has 29 days exactly in a leap year. */
  function DaysInMonth(y: int, m: int): (n: int)
    requires 1 <= m <= 12
    ensures 28 <= n <= 31
    ensures n < 30 <==> m == 2
    ensures m == 2 ==> (n == 29 <==> IsLeapYear(y))
    ensures n == 30 <==> (m == 4 || m == 6 || m == 9 || m == 11)
  {
    if m == 2 then (if IsLeapYear(y) then 29 else 28)
    else if m == 4 || m == 6 || m == 9 || m == 11 then 30
    else 31
  }

  predicate ValidDate(d: CivilDate) {
    1 <= d.month <= 12 && 1 <= d.day <= DaysInMonth(d.year, d.month)
  }

  /** A calendar date: month in 1..12 and day within the month's length. */
  type Date = d: CivilDate | ValidDate(d) witness CivilDate(1, 1, 1)

  function Min(a: int, b: int): int { if a <= b then a else b }

  /**
   * Days in the years before year y, counted from the start of year 1 (and
   * backwards for years before it).
   */
  function DaysBeforeYear(y: int): int
    decreases if y >= 1 then y - 1 else 1 - y
  {
    if y == 1 then 0
    else if y > 1 then DaysBeforeYear(y - 1) + DaysInYear(y - 1)
    else DaysBeforeYear(y + 1) - DaysInYear(y)
  }

  /** Days in the months of year y before month m. */
  function DaysBeforeMonth(y: int, m: int): int
    requires 1 <= m <= 12
  {
    var common :=
      if m == 1 then 0 else if m == 2 then 31 else if m == 3 then 59
      else if m == 4 then 90 else if m == 5 then 120 else if m == 6 then 151
      else if m == 7 then 181 else if m == 8 then 212 else if m == 9 then 243
      else if m == 10 then 273 else if m == 11 then 304 else 334;
    common + (if m > 2 && IsLeapYear(y) then 1 else 0)
  }

  /** The ordinal day number of a date. */
  function Ordinal(d: Date): int {
    DaysBeforeYear(d.year) + DaysBeforeMonth(d.year, d.month) + d.day
  }

  /** Lexicographic order on (year, month, day): the order Python compares dates in. */
  predicate LexBefore(a: Date, b: Date) {
    a.year < b.year ||
    (a.year == b.year && (a.month < b.month || (a.month == b.month && a.day < b.day)))
  }

  lemma YearLength(y: int)
    ensures DaysBeforeYear(y + 1) == DaysBeforeYear(y) + DaysInYear(y)
  {
  }

  /** The count agrees with the leap-year formula 365(y-1) + (y-1)/4 - (y-1)/100 + (y-1)/400. */
  lemma {:induction false} DaysBeforeYearClosedForm(y: int)
    requires y >= 1
    ensures DaysBeforeYear(y) == 365 * (y - 1) + (y - 1) / 4 - (y - 1) / 100 + (y - 1) / 400
    decreases y
  {
    if y > 1 {
      DaysBeforeYearClosedForm(y - 1);
      LeapYearCounts(y - 1);
      YearLength(y - 1);
    }
  }

  /** Passing year p adds one to each of the counts p/4, p/100, p/400 exactly when p is divisible. */
  lemma LeapYearCounts(p: int)
    ensures DaysInYear(p) - 365 == (p / 4 - (p - 1) / 4) - (p / 100 - (p - 1) / 100) + (p / 400 - (p - 1) / 400)
  {
    QuotientStep4(p);
    QuotientStep100(p);
    QuotientStep400(p);
    if p % 100 == 0 {
      assert p == 100 * (p / 100);
    }
    if p % 400 == 0 {
      assert p == 400 * (p / 400);
    }
  }

  lemma QuotientStep4(p: int)
    ensures p / 4 - (p - 1) / 4 == (if p % 4 == 0 then 1 else 0)
  {
  }

  lemma QuotientStep100(p: int)
    ensures p / 100 - (p - 1) / 100 == (if p % 100 == 0 then 1 else 0)
  {
  }

  lemma QuotientStep400(p: int)
    ensures p / 400 - (p - 1) / 400 == (if p % 400 == 0 then 1 else 0)
  {
  }

  lemma {:induction false} DaysBeforeYearGrows(a: int, b: int)
    requires a <= b
    ensures DaysBeforeYear(b) - DaysBeforeYear(a) >= 365 * (b - a)
    decreases b - a
  {
    if a < b {
      DaysBeforeYearGrows(a, b - 1);
      YearLength(b - 1);
    }
  }

  lemma MonthStartsGrow(y: int, m1: int, m2: int)
    requires 1 <= m1 < m2 <= 12
    ensures DaysBeforeMonth(y, m1) + DaysInMonth(y, m1) <= DaysBeforeMonth(y, m2)
  {
  }

  lemma LastMonthEndsYear(y: int)
    ensures DaysBeforeMonth(y, 12) + DaysInMonth(y, 12) == DaysInYear(y)
  {
  }

  /** The ordinal of a date lies inside its year's block of ordinals. */
  lemma OrdinalWithinYear(d: Date)
    ensures DaysBeforeYear(d.year) < Ordinal(d) <= DaysBeforeYear(d.year) + DaysInYear(d.year)
  {
    if d.month < 12 {
      MonthStartsGrow(d.year, d.month, 12);
    }
    LastMonthEndsYear(d.year);
  }

  /** Ordinal order is exactly the calendar (lexicographic) order. */
  lemma LexBeforeIffOrdinalLess(a: Date, b: Date)
    ensures LexBefore(a, b) <==> Ordinal(a) < Ordinal(b)
  {
    if a.year < b.year {
      OrdinalWithinYear(a);
      OrdinalWithinYear(b);
      YearLength(a.year);
      DaysBeforeYearGrows(a.year + 1, b.year);
    } else if b.year < a.year {
      OrdinalWithinYear(a);
      OrdinalWithinYear(b);
      YearLength(b.year);
      DaysBeforeYearGrows(b.year + 1, a.year);
    } else if a.month < b.month {
      MonthStartsGrow(a.year, a.month, b.month);
    } else if b.month < a.month {
      MonthStartsGrow(a.year, b.month, a.month);
    }
  }

  /** Distinct dates have distinct ordinals. */
  lemma OrdinalInjective(a: Date, b: Date)
    ensures Ordinal(a) == Ordinal(b) <==> a == b
  {
    LexBeforeIffOrdinalLess(a, b);
    LexBeforeIffOrdinalLess(b, a);
  }

  /** The day before d (`d - timedelta(days=1)`). */
  function PrevDay(d: Date): Date {
    if d.day > 1 then CivilDate(d.year, d.month, d.day - 1)
    else if d.month > 1 then CivilDate(d.year, d.month - 1, DaysInMonth(d.year, d.month - 1))
    else CivilDate(d.year - 1, 12, 31)
  }

  /** PrevDay steps back exactly one ordinal day. */
  lemma PrevDayOrdinal(d: Date)
    ensures Ordinal(PrevDay(d)) == Ordinal(d) - 1
  {
    if d.day == 1 && d.month == 1 {
      YearLength(d.year - 1);
      LastMonthEndsYear(d.year - 1);
    }
  }

  /** Number of days from a to b, both ends included (`(b - a).days + 1`). */
  function DaysBetweenInclusive(a: Date, b: Date): (n: int)
    ensures a == b ==> n == 1
    ensures n >= 1 <==> Ordinal(a) <= Ordinal(b)
  {
    Ordinal(b) - Ordinal(a) + 1
  }

  /** The last day of d's month (`eom`). */
  function EndOfMonth(d: Date): (r: Date)
    ensures r.year == d.year && r.month == d.month
    ensures NotAfter(d, r)
  {
    CivilDate(d.year, d.month, DaysInMonth(d.year, d.month))
  }

  /** No date of d's month comes after EndOfMonth(d). */
  lemma EndOfMonthIsLast(d: Date, e: Date)
    requires e.year == d.year && e.month == d.month
    ensures NotAfter(e, EndOfMonth(d))
  {
  }

  /** Months counted from year 0, month 1. */
  function MonthIndex(d: CivilDate): int {
    d.year * 12 + (d.month - 1)
  }

  /**
   * `d + relativedelta(months=n)`: move n calendar months and clamp the day to
   * the length of the month reached.
   */
  function AddMonths(d: Date, n: int): (r: Date)
    ensures MonthIndex(r) == MonthIndex(d) + n
    ensures r.day <= d.day
    ensures r.day == d.day || r.day == DaysInMonth(r.year, r.month)
    ensures d.day <= DaysInMonth(r.year, r.month) ==> r.day == d.day
  {
    var t := MonthIndex(d) + n;
    var y := t / 12;
    var m := t % 12 + 1;
    CivilDate(y, m, Min(d.day, DaysInMonth(y, m)))
  }

  /** `d + relativedelta(years=n)`: same month, day clamped (29 February to 28 February). */
  function AddYears(d: Date, n: int): (r: Date)
    ensures r == AddMonths(d, 12 * n)
  {
    CivilDate(d.year + n, d.month, Min(d.day, DaysInMonth(d.year + n, d.month)))
  }

  /** Shifting by zero months is the identity. */
  lemma AddMonthsZero(d: Date)
    ensures AddMonths(d, 0) == d
  {
  }

  /** A larger month shift always lands on a strictly later date. */
  lemma AddMonthsStrictlyIncreasing(d: Date, k1: int, k2: int)
    requires k1 < k2
    ensures LexBefore(AddMonths(d, k1), AddMonths(d, k2))
  {
    EarlierMonthEarlierDate(AddMonths(d, k1), AddMonths(d, k2));
  }

  /** A year earlier is strictly earlier (`target - relativedelta(years=1) < target`). */
  lemma YearEarlierIsEarlier(d: Date)
    ensures LexBefore(AddYears(d, -1), d)
  {
    AddMonthsZero(d);
    AddMonthsStrictlyIncreasing(d, -12, 0);
  }

  /** `a <= b` on dates. */
  predicate NotAfter(a: Date, b: Date) {
    !LexBefore(b, a)
  }

  /** `a <= b` agrees with the ordinal order. */
  lemma NotAfterIffOrdinalLe(a: Date, b: Date)
    ensures NotAfter(a, b) <==> Ordinal(a) <= Ordinal(b)
  {
    LexBeforeIffOrdinalLess(b, a);
  }

  /**
   * The total month count of `relativedelta(to, from)` (years * 12 + months):
   * the calendar month difference, moved one step toward zero when shifting
   * `from` by it overshoots `to`.
   */
  function MonthsBetween(from: Date, to: Date): int {
    var m0 := MonthIndex(to) - MonthIndex(from);
    if NotAfter(from, to) then
      (if LexBefore(to, AddMonths(from, m0)) then m0 - 1 else m0)
    else
      (if LexBefore(AddMonths(from, m0), to) then m0 + 1 else m0)
  }

  /** A date in an earlier calendar month is an earlier date. */
  lemma EarlierMonthEarlierDate(a: Date, b: Date)
    requires MonthIndex(a) < MonthIndex(b)
    ensures LexBefore(a, b)
  {
  }

  /** An earlier date lies in the same or an earlier calendar month. */
  lemma MonthIndexOrdered(a: Date, b: Date)
    requires NotAfter(a, b)
    ensures MonthIndex(a) <= MonthIndex(b)
  {
    if MonthIndex(b) < MonthIndex(a) {
      EarlierMonthEarlierDate(b, a);
    }
  }

  /** MonthsBetween is the number of whole months from `from` that still fit before `to`. */
  lemma MonthsBetweenIsWholeMonths(from: Date, to: Date)
    requires NotAfter(from, to)
    ensures MonthsBetween(from, to) >= 0
    ensures NotAfter(AddMonths(from, MonthsBetween(from, to)), to)
    ensures LexBefore(to, AddMonths(from, MonthsBetween(from, to) + 1))
  {
    var m0 := MonthIndex(to) - MonthIndex(from);
    MonthIndexOrdered(from, to);
    if LexBefore(to, AddMonths(from, m0)) {
      OvershootStepsBack(from, to, m0);
    } else {
      EarlierMonthEarlierDate(to, AddMonths(from, m0 + 1));
    }
  }

  /** When the calendar month difference overshoots, one month less fits. */
  lemma OvershootStepsBack(from: Date, to: Date, m0: int)
    requires NotAfter(from, to)
    requires m0 == MonthIndex(to) - MonthIndex(from) >= 0
    requires LexBefore(to, AddMonths(from, m0))
    ensures m0 >= 1
    ensures NotAfter(AddMonths(from, m0 - 1), to)
  {
    if m0 == 0 {
      AddMonthsZero(from);
    }
    EarlierMonthEarlierDate(AddMonths(from, m0 - 1), to);
  }

  /** Integer division of a month count by 12, truncated toward zero. */
  function TowardZeroYears(m: int): (y: int)
    ensures m >= 0 ==> 0 <= 12 * y <= m < 12 * (y + 1)
    ensures m <= 0 ==> y <= 0
  {
    if m >= 0 then m / 12 else -((-m) / 12)
  }

  /** `x < e` exactly when `x <= e - 1 day`. */
  lemma BeforeIffNotAfterPrevDay(x: Date, e: Date)
    ensures LexBefore(x, e) <==> NotAfter(x, PrevDay(e))
  {
    LexBeforeIffOrdinalLess(x, e);
    NotAfterIffOrdinalLe(x, PrevDay(e));
    PrevDayOrdinal(e);
  }

  /** Whole years of `relativedelta(to, from).years`: months truncated toward zero. */
  function YearsBetween(from: Date, to: Date): (y: int)
    ensures NotAfter(from, to) ==> y >= 0
    ensures NotAfter(from, to) ==>
              NotAfter(AddYears(from, y), to) && LexBefore(to, AddYears(from, y + 1))
    ensures LexBefore(to, from) ==> y <= 0
  {
    var y := TowardZeroYears(MonthsBetween(from, to));
    WholeYearsFit(from, to, y);
    y
  }

  /** On the k-th anniversary of d, exactly k whole years have passed. */
  lemma AnniversaryYears(d: Date, k: int)
    requires k >= 0
    ensures YearsBetween(d, AddYears(d, k)) == k
  {
    var e := AddYears(d, k);
    AddMonthsZero(d);
    if k > 0 {
      AddMonthsStrictlyIncreasing(d, 0, 12 * k);
    }
    var y := YearsBetween(d, e);
    if y > k {
      AddMonthsStrictlyIncreasing(d, 12 * k, 12 * y);
    } else if y + 1 < k {
      AddMonthsStrictlyIncreasing(d, 12 * (y + 1), 12 * k);
    }
  }

  lemma WholeYearsFit(from: Date, to: Date, y: int)
    requires y == TowardZeroYears(MonthsBetween(from, to))
    ensures NotAfter(from, to) ==> y >= 0
    ensures NotAfter(from, to) ==>
              NotAfter(AddYears(from, y), to) && LexBefore(to, AddYears(from, y + 1))
    ensures LexBefore(to, from) ==> y <= 0
  {
    if NotAfter(from, to) {
      MonthsBetweenIsWholeMonths(from, to);
      ForwardWholeYears(from, to, MonthsBetween(from, to), y);
    } else {
      BackwardMonthsNonPositive(from, to);
    }
  }

  /** From whole months to whole years: 12y <= m < 12(y + 1) brackets `to` between year shifts. */
  lemma ForwardWholeYears(from: Date, to: Date, m: int, y: int)
    requires 0 <= 12 * y <= m < 12 * (y + 1)
    requires NotAfter(AddMonths(from, m), to) && LexBefore(to, AddMonths(from, m + 1))
    ensures NotAfter(AddYears(from, y), to) && LexBefore(to, AddYears(from, y + 1))
  {
    if 12 * y < m {
      AddMonthsStrictlyIncreasing(from, 12 * y, m);
    }
    if m + 1 < 12 * (y + 1) {
      AddMonthsStrictlyIncreasing(from, m + 1, 12 * (y + 1));
    }
  }

  lemma BackwardMonthsNonPositive(from: Date, to: Date)
    requires LexBefore(to, from)
    ensures MonthsBetween(from, to) <= 0
  {
    var m0 := MonthIndex(to) - MonthIndex(from);
    AddMonthsZero(from);
    if m0 == 0 {
      assert AddMonths(from, m0) == from;
    }
  }
}
