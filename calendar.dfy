/**
 * Proleptic Gregorian calendar arithmetic: the facts about Go's `time` package
 * that the recurrence calculator relies on.  Days are numbered consecutively
 * (`DayNumber`), Go's `time.Date` normalisation of an out-of-range day of month
 * is `Normalized`, `Time.AddDate` is `AddDate`, `Time.Weekday` is `Weekday`
 * and `Time.After` is `After`.  Time zones are not modelled.
 */
module Calendar {

  /** A calendar day; only values satisfying `Valid()` name a real day. */
  datatype Date = Date(year: int, month: int, day: int) {
    predicate Valid() {
      1 <= month <= 12 && 1 <= day <= DaysInMonth(year, month)
    }
  }

  /** Nanoseconds in a day: an instant's time of day stays below this. */
  const NanosPerDay: nat := 86_400_000_000_000

  /** A wall-clock instant: a day and the time elapsed since its midnight. */
  datatype Instant = Instant(date: Date, sinceMidnight: nat) {
    predicate Valid() {
      date.Valid() && sinceMidnight < NanosPerDay
    }
  }

  /** The instant `time.Parse` produces for a date: its midnight. */
  function Midnight(d: Date): Instant {
    Instant(d, 0)
  }

  /** Go's `a.After(b)`: `a` is strictly later than `b`. */
  predicate After(a: Instant, b: Instant)
    requires a.date.Valid() && b.date.Valid()
  {
    DayNumber(a.date) > DayNumber(b.date)
    || (DayNumber(a.date) == DayNumber(b.date) && a.sinceMidnight > b.sinceMidnight)
  }

  /** Go's `isLeap`. Divisibility does not depend on how `%` rounds, so Dafny's `%` agrees with Go's here. */
  predicate IsLeap(y: int) {
    y % 4 == 0 && (y % 100 != 0 || y % 400 == 0)
  }

  function YearLength(y: int): int {
    if IsLeap(y) then 366 else 365
  }

  /** Go's `daysIn`. */
  function DaysInMonth(y: int, m: int): int
    requires 1 <= m <= 12
  {
    if m == 2 then (if IsLeap(y) then 29 else 28)
    else if m == 4 || m == 6 || m == 9 || m == 11 then 30
    else 31
  }

  /** Days in the months before `m` of a common year. */
  function CommonDaysBefore(m: int): int
    requires 1 <= m <= 12
  {
    if m == 1 then 0 else if m == 2 then 31 else if m == 3 then 59
    else if m == 4 then 90 else if m == 5 then 120 else if m == 6 then 151
    else if m == 7 then 181 else if m == 8 then 212 else if m == 9 then 243
    else if m == 10 then 273 else if m == 11 then 304 else 334
  }

  /** Days in the months of year `y` before month `m`. */
  function DaysBeforeMonth(y: int, m: int): int
    requires 1 <= m <= 12
  {
    CommonDaysBefore(m) + (if m > 2 && IsLeap(y) then 1 else 0)
  }

  /** Days from 1 January of year 0 to 1 January of year `y` (negative before year 0). */
  function DaysBeforeYear(y: int): int
    decreases if y < 0 then -y else y
  {
    if y == 0 then 0
    else if y > 0 then DaysBeforeYear(y - 1) + YearLength(y - 1)
    else DaysBeforeYear(y + 1) - YearLength(y)
  }

  /** Consecutive numbering of days; 1 January of year 0 is day 0. */
  function DayNumber(d: Date): int
    requires 1 <= d.month <= 12
  {
    DaysBeforeYear(d.year) + DaysBeforeMonth(d.year, d.month) + d.day - 1
  }

  /** Lexicographic order on (year, month, day). */
  predicate Precedes(a: Date, b: Date) {
    a.year < b.year
    || (a.year == b.year && a.month < b.month)
    || (a.year == b.year && a.month == b.month && a.day < b.day)
  }

  /** Moving from year `y` to `y + 1` adds one multiple of `k` exactly when `k` divides `y`. */
  lemma MultiplesStep(y: int, k: int)
    requires k == 4 || k == 100 || k == 400
    ensures (y + k) / k - (y + k - 1) / k == if y % k == 0 then 1 else 0
  {
    if k == 4 {
      var q, r := y / 4, y % 4;
      assert y == 4 * q + r;
      assert (y + 4) / 4 == q + 1;
      assert (y + 3) / 4 == if r == 0 then q else q + 1;
    } else if k == 100 {
      var q, r := y / 100, y % 100;
      assert y == 100 * q + r;
      assert (y + 100) / 100 == q + 1;
      assert (y + 99) / 100 == if r == 0 then q else q + 1;
    } else {
      var q, r := y / 400, y % 400;
      assert y == 400 * q + r;
      assert (y + 400) / 400 == q + 1;
      assert (y + 399) / 400 == if r == 0 then q else q + 1;
    }
  }

  /** 365 days a year plus one for each leap year in between: `(y + k - 1) / k`
      counts the multiples of `k` in [0, y) (negated, those in [y, 0) when `y` is negative). */
  function ClosedDaysBeforeYear(y: int): int {
    365 * y + (y + 3) / 4 - (y + 99) / 100 + (y + 399) / 400
  }

  lemma DivisibilityChain(y: int)
    ensures y % 400 == 0 ==> y % 100 == 0
    ensures y % 100 == 0 ==> y % 4 == 0
  {
    var q400, q100, q4 := y / 400, y / 100, y / 4;
    assert y == 400 * q400 + y % 400;
    assert y == 100 * q100 + y % 100;
    assert y == 4 * q4 + y % 4;
    if y % 400 == 0 {
      assert y == 100 * (4 * q400) + 0;
    }
    if y % 100 == 0 {
      assert y == 4 * (25 * q100) + 0;
    }
  }

  lemma ClosedYearStep(y: int)
    ensures ClosedDaysBeforeYear(y + 1) == ClosedDaysBeforeYear(y) + YearLength(y)
  {
    MultiplesStep(y, 4);
    MultiplesStep(y, 100);
    MultiplesStep(y, 400);
    DivisibilityChain(y);
    var a := (y + 4) / 4 - (y + 3) / 4;
    var b := (y + 100) / 100 - (y + 99) / 100;
    var c := (y + 400) / 400 - (y + 399) / 400;
    assert ClosedDaysBeforeYear(y + 1) - ClosedDaysBeforeYear(y) == 365 + a - b + c;
    assert a - b + c == if IsLeap(y) then 1 else 0;
  }

  /** `DaysBeforeYear` agrees with the closed form of the Gregorian leap-year rule. */
  lemma {:induction false} DaysBeforeYearClosedForm(y: int)
    ensures DaysBeforeYear(y) == ClosedDaysBeforeYear(y)
    decreases if y < 0 then -y else y
  {
    if y > 0 {
      DaysBeforeYearClosedForm(y - 1);
      ClosedYearStep(y - 1);
    } else if y < 0 {
      DaysBeforeYearClosedForm(y + 1);
      ClosedYearStep(y);
    }
  }

  lemma YearStep(y: int)
    ensures DaysBeforeYear(y + 1) == DaysBeforeYear(y) + YearLength(y)
  {
  }

  lemma {:induction false} YearsMonotone(y1: int, y2: int)
    requires y1 <= y2
    ensures DaysBeforeYear(y2) - DaysBeforeYear(y1) >= 365 * (y2 - y1)
    decreases y2 - y1
  {
    if y1 < y2 {
      YearsMonotone(y1, y2 - 1);
      YearStep(y2 - 1);
    }
  }

  /** The months of a year tile it: each month ends where the next begins. */
  lemma MonthStep(y: int, m: int)
    requires 1 <= m <= 12
    ensures m < 12 ==> DaysBeforeMonth(y, m + 1) == DaysBeforeMonth(y, m) + DaysInMonth(y, m)
    ensures m == 12 ==> DaysBeforeMonth(y, m) + DaysInMonth(y, m) == YearLength(y)
  {
  }

  lemma MonthsMonotone(y: int, m1: int, m2: int)
    requires 1 <= m1 < m2 <= 12
    ensures DaysBeforeMonth(y, m1) + DaysInMonth(y, m1) <= DaysBeforeMonth(y, m2)
  {
  }

  /** A valid day lies inside its year. */
  lemma DayOfYearBounds(d: Date)
    requires d.Valid()
    ensures DaysBeforeYear(d.year) <= DayNumber(d) < DaysBeforeYear(d.year) + YearLength(d.year)
  {
    MonthStep(d.year, 12);
    if d.month < 12 {
      MonthsMonotone(d.year, d.month, 12);
    }
  }

  /** Day numbers follow calendar order. */
  lemma DayNumberMonotone(a: Date, b: Date)
    requires a.Valid() && b.Valid() && Precedes(a, b)
    ensures DayNumber(a) < DayNumber(b)
  {
    if a.year < b.year {
      DayOfYearBounds(a);
      DayOfYearBounds(b);
      YearStep(a.year);
      YearsMonotone(a.year + 1, b.year);
    } else if a.month < b.month {
      MonthsMonotone(a.year, a.month, b.month);
    }
  }

  /** Day numbers compare exactly as the days they number. */
  lemma DayNumberOrder(a: Date, b: Date)
    requires a.Valid() && b.Valid()
    ensures DayNumber(a) < DayNumber(b) <==> Precedes(a, b)
    ensures DayNumber(a) == DayNumber(b) <==> a == b
  {
    if Precedes(a, b) {
      DayNumberMonotone(a, b);
    } else if Precedes(b, a) {
      DayNumberMonotone(b, a);
    }
  }

  lemma DayNumberInjective(a: Date, b: Date)
    requires a.Valid() && b.Valid() && DayNumber(a) == DayNumber(b)
    ensures a == b
  {
    DayNumberOrder(a, b);
  }

  /** The following day. */
  function NextDay(d: Date): (r: Date)
    requires d.Valid()
    ensures r.Valid() && DayNumber(r) == DayNumber(d) + 1
  {
    MonthStep(d.year, d.month);
    if d.day < DaysInMonth(d.year, d.month) then Date(d.year, d.month, d.day + 1)
    else if d.month < 12 then Date(d.year, d.month + 1, 1)
    else YearStep(d.year); Date(d.year + 1, 1, 1)
  }

  /** The preceding day. */
  function PrevDay(d: Date): (r: Date)
    requires d.Valid()
    ensures r.Valid() && DayNumber(r) == DayNumber(d) - 1
  {
    if d.day > 1 then Date(d.year, d.month, d.day - 1)
    else if d.month > 1 then MonthStep(d.year, d.month - 1); Date(d.year, d.month - 1, DaysInMonth(d.year, d.month - 1))
    else YearStep(d.year - 1); MonthStep(d.year - 1, 12); Date(d.year - 1, 12, 31)
  }

  /** The day `n` days after `d` (before it when `n` is negative). */
  function AddDays(d: Date, n: int): (r: Date)
    requires d.Valid()
    ensures r.Valid() && DayNumber(r) == DayNumber(d) + n
    decreases if n < 0 then -n else n
  {
    if n == 0 then d
    else if n > 0 then NextDay(AddDays(d, n - 1))
    else PrevDay(AddDays(d, n + 1))
  }

  lemma AddDaysAdd(d: Date, a: int, b: int)
    requires d.Valid()
    ensures AddDays(AddDays(d, a), b) == AddDays(d, a + b)
  {
    DayNumberInjective(AddDays(AddDays(d, a), b), AddDays(d, a + b));
  }

  /** Go's `time.Date(year, month, day, 0, 0, 0, 0, time.UTC)` for a month in
      range: a day of month outside the month rolls over into the months around it. */
  function Normalized(year: int, month: int, day: int): (r: Date)
    requires 1 <= month <= 12
    ensures r.Valid()
    ensures DayNumber(r) == DayNumber(Date(year, month, 1)) + day - 1
  {
    AddDays(Date(year, month, 1), day - 1)
  }

  /** Go's `t.AddDate(years, 0, days)` on a midnight: add to the year and to the
      day of month, then normalise as `time.Date` does. */
  function AddDate(d: Date, years: int, days: int): (r: Date)
    requires d.Valid()
    ensures r.Valid()
  {
    Normalized(d.year + years, d.month, d.day + days)
  }

  /** `AddDate(0, 0, n)` moves exactly `n` days. */
  lemma AddDateDays(d: Date, n: int)
    requires d.Valid()
    ensures AddDate(d, 0, n) == AddDays(d, n)
    ensures DayNumber(AddDate(d, 0, n)) == DayNumber(d) + n
  {
    DayNumberInjective(AddDate(d, 0, n), AddDays(d, n));
  }

  /** `AddDate(1, 0, 0)` keeps month and day, except that 29 February becomes
      1 March when the next year is not a leap year. */
  lemma AddDateYear(d: Date)
    requires d.Valid()
    ensures AddDate(d, 1, 0) ==
      if d.month == 2 && d.day == 29 && !IsLeap(d.year + 1) then Date(d.year + 1, 3, 1)
      else Date(d.year + 1, d.month, d.day)
  {
    var r := AddDate(d, 1, 0);
    if d.month == 2 && d.day == 29 && !IsLeap(d.year + 1) {
      DayNumberInjective(r, Date(d.year + 1, 3, 1));
    } else {
      DayNumberInjective(r, Date(d.year + 1, d.month, d.day));
    }
  }

  /** `AddDate(1, 0, 0)` moves 365 or 366 days forward into the next year. */
  lemma AddDateYearSpan(d: Date)
    requires d.Valid()
    ensures AddDate(d, 1, 0).year == d.year + 1
    ensures 365 <= DayNumber(AddDate(d, 1, 0)) - DayNumber(d) <= 366
  {
    AddDateYear(d);
    YearStep(d.year);
  }

  /** `d` with `AddDate(1, 0, 0)` applied `k` times, as a loop that reassigns the date does it. */
  function YearsLater(d: Date, k: nat): (r: Date)
    requires d.Valid()
    ensures r.Valid() && r.year == d.year + k
  {
    if k == 0 then d
    else
      var prev := YearsLater(d, k - 1);
      AddDateYearSpan(prev);
      AddDate(prev, 1, 0)
  }

  /** Every year counted moves the day forward by at least 365 days. */
  lemma {:induction false} YearsLaterSpan(d: Date, k: nat)
    requires d.Valid()
    ensures DayNumber(YearsLater(d, k)) >= DayNumber(d) + 365 * k
    decreases k
  {
    if k > 0 {
      YearsLaterSpan(d, k - 1);
      AddDateYearSpan(YearsLater(d, k - 1));
    }
  }

  /** k >= 1 years on is the same month and day k years later, except that
      29 February becomes 1 March for good: the first step lands in a common
      year, and later steps keep 1 March even in leap years. */
  lemma {:induction false} YearsLaterClosedForm(d: Date, k: nat)
    requires d.Valid() && k >= 1
    ensures YearsLater(d, k) == YearsOn(d, k)
    decreases k
  {
    var prev := YearsLater(d, k - 1);
    assert YearsLater(d, k) == AddDate(prev, 1, 0);
    if k == 1 {
      FirstYearOn(prev);
    } else {
      YearsLaterClosedForm(d, k - 1);
      NextYearOn(d, k - 1, prev);
    }
  }

  /** The date k >= 1 years after `d`, 29 February taken to 1 March. */
  function YearsOn(d: Date, k: int): Date {
    if d.month == 2 && d.day == 29 then Date(d.year + k, 3, 1)
    else Date(d.year + k, d.month, d.day)
  }

  lemma FirstYearOn(d: Date)
    requires d.Valid()
    ensures AddDate(d, 1, 0) == YearsOn(d, 1)
  {
    AddDateYear(d);
    if d.month == 2 && d.day == 29 {
      assert IsLeap(d.year);
      assert d.year % 4 == 0;
      assert (d.year + 1) % 4 == 1;
    }
  }

  lemma NextYearOn(d: Date, k: int, prev: Date)
    requires prev.Valid() && prev == YearsOn(d, k)
    ensures AddDate(prev, 1, 0) == YearsOn(d, k + 1)
  {
    AddDateYear(prev);
  }

  /** Each further year moves the date strictly forward. */
  lemma YearsLaterMonotone(d: Date, j: nat, k: nat)
    requires d.Valid() && j < k
    ensures DayNumber(YearsLater(d, j)) < DayNumber(YearsLater(d, k))
  {
    DayNumberMonotone(YearsLater(d, j), YearsLater(d, k));
  }

  /** Go's `Weekday()`: 0 is Sunday.  1 January of year 0 was a Saturday. */
  function Weekday(d: Date): (w: int)
    requires d.Valid()
    ensures 0 <= w < 7
  {
    WeekdayOfDay(DayNumber(d))
  }

  /** The weekday of day number `n`. */
  function WeekdayOfDay(n: int): (w: int)
    ensures 0 <= w < 7
  {
    (n + 6) % 7
  }

  /** Go's reference day, 2 January 2006, was a Monday. */
  lemma ReferenceDayIsMonday()
    ensures Weekday(Date(2006, 1, 2)) == 1
  {
    DayNumberInJanuary(2006, 2);
    assert ClosedDaysBeforeYear(2006) == 732677;
  }

  /** 1 January 1970 was a Thursday. */
  lemma EpochIsThursday()
    ensures Weekday(Date(1970, 1, 1)) == 4
  {
    DayNumberInJanuary(1970, 1);
    assert ClosedDaysBeforeYear(1970) == 719528;
  }

  /** The number of a January day, from the closed form of the year's start. */
  lemma DayNumberInJanuary(y: int, day: int)
    ensures DayNumber(Date(y, 1, day)) == ClosedDaysBeforeYear(y) + day - 1
  {
    DaysBeforeYearClosedForm(y);
  }

  /** Stepping `n` days moves the weekday `n` places round the week. */
  lemma WeekdayAfter(d: Date, n: int)
    requires d.Valid()
    ensures Weekday(AddDays(d, n)) == (Weekday(d) + n) % 7
  {
    WeekdayShift(DayNumber(d), n);
  }

  /** `n` days on, the weekday has moved `n` places round the week. */
  lemma WeekdayShift(x: int, n: int)
    ensures WeekdayOfDay(x + n) == (WeekdayOfDay(x) + n) % 7
  {
    ModAdd(x + 6, n);
  }

  /** Adding to a number adds to its remainder modulo 7. */
  lemma ModAdd(x: int, n: int)
    ensures (x + n) % 7 == (x % 7 + n) % 7
  {
    var q, r := x / 7, x % 7;
    assert x + n == 7 * q + (r + n);
    ModShift(q, r + n);
  }

  /** Every weekday comes round within a week of any day. */
  lemma WeekdayComesRound(x: int, c: int) returns (m: int)
    requires 0 <= c < 7
    ensures 0 <= m < 7 && WeekdayOfDay(x + m) == c
  {
    m := (c - x - 6) % 7;
    var q := (c - x - 6) / 7;
    assert x + m + 6 == 7 * (-q) + c;
    ModShift(-q, c);
  }

  lemma ModShift(q: int, a: int)
    ensures (7 * q + a) % 7 == a % 7
  {
    var c, b := a / 7, a % 7;
    assert 7 * q + a == 7 * (q + c) + b;
  }
}
